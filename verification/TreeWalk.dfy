/** The worklist walk that lists an exact directory tree. Names keep their case here. */
module TreeWalk {
  import opened FileTree
  import opened Ordinal

  datatype TreeEntry = TreeEntry(path: Path, isDirectory: bool, isEmptyDirectory: bool)

  /** Properly below the root of the walk. */
  predicate Below(root: Path, path: Path) {
    root <= path && |path| > |root|
  }

  function Up(path: Path): Path
    requires path != []
  {
    path[..|path| - 1]
  }

  function Children(fs: FileSystem, directory: Path): set<Path> {
    set p | p in fs && p != [] && Up(p) == directory
  }

  function EntryFor(fs: FileSystem, path: Path): TreeEntry
    requires path in fs
  {
    TreeEntry(path, fs[path].Dir?, fs[path].Dir? && Children(fs, path) == {})
  }

  /** Files whose directory has been visited. */
  function FilesIn(fs: FileSystem, visited: set<Path>): set<Path> {
    set p | p in fs && fs[p].File? && p != [] && Up(p) in visited
  }

  function DirectoriesIn(fs: FileSystem, visited: set<Path>): set<Path> {
    set p | p in fs && fs[p].Dir? && p != [] && Up(p) in visited
  }

  function Paths(entries: seq<TreeEntry>): (r: seq<Path>)
    ensures |r| == |entries| && forall i | 0 <= i < |entries| :: r[i] == entries[i].path
  {
    seq(|entries|, i requires 0 <= i < |entries| => entries[i].path)
  }

  lemma PathsOfMore(e: TreeEntry, entries: seq<TreeEntry>)
    ensures multiset(Paths([e] + entries)) == multiset{e.path} + multiset(Paths(entries))
  {
    assert Paths([e] + entries) == [e.path] + Paths(entries);
  }

  /** A sequence holds each path of a set exactly once, and nothing else. */
  ghost predicate EachOnce(sequence: seq<Path>, paths: set<Path>) {
    multiset(sequence) == multiset(paths)
  }

  /** The entries so far: one for each listed path, saying of it what is so. */
  ghost predicate Lists(fs: FileSystem, entries: seq<TreeEntry>, listed: set<Path>) {
    EachOnce(Paths(entries), listed) &&
    forall i | 0 <= i < |entries| :: entries[i].path in fs && entries[i] == EntryFor(fs, entries[i].path)
  }

  lemma OnceLess(sequence: seq<Path>, paths: set<Path>)
    requires EachOnce(sequence, paths) && sequence != []
    ensures sequence[|sequence| - 1] in paths
    ensures EachOnce(sequence[..|sequence| - 1], paths - {sequence[|sequence| - 1]})
  {
    var top, rest := sequence[|sequence| - 1], sequence[..|sequence| - 1];
    assert sequence == rest + [top];
    assert top in multiset(sequence);
    assert top in paths && multiset(rest) == multiset(sequence) - multiset{top};
    assert multiset(paths - {top}) == multiset(paths) - multiset{top};
  }

  lemma ListsOneMore(fs: FileSystem, entries: seq<TreeEntry>, listed: set<Path>, path: Path)
    requires Lists(fs, entries, listed) && path in fs && path !in listed
    ensures Lists(fs, entries + [EntryFor(fs, path)], listed + {path})
  {
    assert Paths(entries + [EntryFor(fs, path)]) == Paths(entries) + [path];
  }

  function FilesOf(fs: FileSystem, paths: set<Path>): set<Path> {
    set p | p in paths && p in fs && fs[p].File?
  }

  function DirectoriesOf(fs: FileSystem, paths: set<Path>): set<Path> {
    set p | p in paths && p in fs && fs[p].Dir?
  }

  /** A directory's entries `seen` so far and `left` to see. */
  ghost predicate Seeing(fs: FileSystem, seen: set<Path>, left: set<Path>, entries: seq<TreeEntry>, pending: seq<Path>,
                         listed: set<Path>, waiting: set<Path>) {
    seen !! left && left <= fs.Keys && left !! listed && left !! waiting &&
    Lists(fs, entries, listed + FilesOf(fs, seen)) && EachOnce(pending, waiting + DirectoriesOf(fs, seen))
  }

  /** One entry of a directory: a file is listed, a directory goes on the stack. */
  method See(fs: FileSystem, entry: Path, entries: seq<TreeEntry>, pending: seq<Path>,
             ghost seen: set<Path>, ghost left: set<Path>, ghost listed: set<Path>, ghost waiting: set<Path>)
    returns (entries': seq<TreeEntry>, pending': seq<Path>)
    requires Seeing(fs, seen, left, entries, pending, listed, waiting) && entry in left
    ensures Seeing(fs, seen + {entry}, left - {entry}, entries', pending', listed, waiting)
  {
    entries', pending' := entries, pending;
    if fs[entry].Dir? {
      pending' := pending + [entry];
    } else {
      ListsOneMore(fs, entries, listed + FilesOf(fs, seen), entry);
      entries' := entries + [TreeEntry(entry, false, false)];
    }
  }

  /** The entries of one directory, in whatever order the file system gives them. */
  method SeeAll(fs: FileSystem, children: set<Path>, entries: seq<TreeEntry>, pending: seq<Path>,
                ghost listed: set<Path>, ghost waiting: set<Path>)
    returns (entries': seq<TreeEntry>, pending': seq<Path>, hasChild: bool)
    requires Seeing(fs, {}, children, entries, pending, listed, waiting)
    ensures Seeing(fs, children, {}, entries', pending', listed, waiting)
    ensures hasChild <==> children != {}
  {
    entries', pending', hasChild := entries, pending, false;
    var left := children;
    assert children - left == {};
    while left != {}
      invariant left <= children
      invariant Seeing(fs, children - left, left, entries', pending', listed, waiting)
      invariant hasChild <==> left < children
      decreases left
    {
      var entry :| entry in left;
      OneLess(children, left, entry);
      hasChild := true;
      entries', pending' := See(fs, entry, entries', pending', children - left, left, listed, waiting);
      left := left - {entry};
    }
    assert children - left == children;
  }

  lemma OneLess(children: set<Path>, left: set<Path>, entry: Path)
    requires left <= children && entry in left
    ensures children - left + {entry} == children - (left - {entry})
  {
  }

  lemma ChildrenByKind(fs: FileSystem, directory: Path)
    ensures FilesOf(fs, Children(fs, directory)) == FilesIn(fs, {directory})
    ensures DirectoriesOf(fs, Children(fs, directory)) == DirectoriesIn(fs, {directory})
  {
  }

  method Visit(fs: FileSystem, directory: Path, entries: seq<TreeEntry>, pending: seq<Path>,
               ghost listed: set<Path>, ghost waiting: set<Path>)
    returns (entries': seq<TreeEntry>, pending': seq<Path>, hasChild: bool)
    requires Lists(fs, entries, listed) && EachOnce(pending, waiting)
    requires Children(fs, directory) !! listed && Children(fs, directory) !! waiting
    ensures Lists(fs, entries', listed + FilesIn(fs, {directory}))
    ensures EachOnce(pending', waiting + DirectoriesIn(fs, {directory}))
    ensures hasChild <==> Children(fs, directory) != {}
  {
    ChildrenByKind(fs, directory);
    assert listed + FilesOf(fs, {}) == listed && waiting + DirectoriesOf(fs, {}) == waiting;
    entries', pending', hasChild := SeeAll(fs, Children(fs, directory), entries, pending, listed, waiting);
  }

  // ----------------------------------------------------------------------------------- the whole walk

  /** Everything properly below the root. */
  function AllBelow(fs: FileSystem, root: Path): set<Path> {
    set p | p in fs && Below(root, p)
  }

  /** The walk so far: what has been visited is listed, with its files; what has been seen but not visited
      waits. */
  ghost predicate WalkInv(fs: FileSystem, root: Path, visited: set<Path>, listed: set<Path>, waiting: set<Path>) {
    (forall p | p in visited + waiting :: p in fs && fs[p].Dir? && (p == root || Below(root, p))) &&
    visited !! waiting && root in visited + waiting &&
    listed == FilesIn(fs, visited) + (visited - {root}) &&
    visited + waiting == DirectoriesIn(fs, visited) + {root}
  }

  lemma InOneMore(fs: FileSystem, visited: set<Path>, directory: Path)
    ensures FilesIn(fs, visited + {directory}) == FilesIn(fs, visited) + FilesIn(fs, {directory})
    ensures DirectoriesIn(fs, visited + {directory}) == DirectoriesIn(fs, visited) + DirectoriesIn(fs, {directory})
  {
  }

  lemma ChildrenAreNew(fs: FileSystem, root: Path, visited: set<Path>, listed: set<Path>, waiting: set<Path>,
                       directory: Path)
    requires WalkInv(fs, root, visited, listed, waiting) && directory in waiting
    ensures Children(fs, directory) !! listed && Children(fs, directory) !! waiting - {directory}
    ensures Children(fs, directory) !! visited + {directory} && directory !in listed + FilesIn(fs, {directory})
    ensures forall p | p in Children(fs, directory) :: Below(root, p)
  {
  }

  lemma VisitKeepsInv(fs: FileSystem, root: Path, visited: set<Path>, listed: set<Path>, waiting: set<Path>,
                      directory: Path)
    requires WalkInv(fs, root, visited, listed, waiting) && directory in waiting
    ensures Children(fs, directory) !! listed && Children(fs, directory) !! waiting - {directory}
    ensures var more := listed + FilesIn(fs, {directory});
      directory !in more &&
      WalkInv(fs, root, visited + {directory}, if directory == root then more else more + {directory},
              waiting - {directory} + DirectoriesIn(fs, {directory}))
  {
    ChildrenAreNew(fs, root, visited, listed, waiting, directory);
    InOneMore(fs, visited, directory);
    var all, next := visited + {directory}, waiting - {directory} + DirectoriesIn(fs, {directory});
    assert DirectoriesIn(fs, {directory}) <= Children(fs, directory);
    assert all + next == visited + waiting + DirectoriesIn(fs, {directory});
    assert all - {root} == (visited - {root}) + ({directory} - {root});
  }

  /** When nothing waits, everything has been visited. */
  lemma {:induction false} AllVisited(fs: FileSystem, root: Path, visited: set<Path>, listed: set<Path>, path: Path)
    requires WellFormed(fs) && WalkInv(fs, root, visited, listed, {}) && path in fs && root <= path
    requires fs[path].Dir?
    ensures path in visited
    decreases |path|
  {
    if path == root {
    } else {
      AllVisited(fs, root, visited, listed, Up(path));
      assert path in DirectoriesIn(fs, visited);
    }
  }

  // ------------------------------------------------------------------------------------ the order

  /** How an entry is sorted. */
  function RelativeName(root: Path, path: Path): string {
    if Below(root, path) then Slashed(path[|root|..]) else ""
  }

  ghost predicate SortedByName(root: Path, entries: seq<TreeEntry>) {
    forall i, j | 0 <= i <= j < |entries| ::
      LessEq(RelativeName(root, entries[i].path), RelativeName(root, entries[j].path))
  }

  function InsertByName(root: Path, entries: seq<TreeEntry>, e: TreeEntry): (r: seq<TreeEntry>)
    ensures multiset(Paths(r)) == multiset(Paths(entries)) + multiset{e.path}
    ensures forall x | x in r :: x == e || x in entries
  {
    if entries == [] || LessEq(RelativeName(root, e.path), RelativeName(root, entries[0].path)) then
      PathsOfMore(e, entries);
      [e] + entries
    else
      var rest := InsertByName(root, entries[1..], e);
      PathsOfMore(entries[0], rest);
      PathsOfMore(entries[0], entries[1..]);
      assert [entries[0]] + entries[1..] == entries;
      [entries[0]] + rest
  }

  lemma {:induction false} InsertKeepsSorted(root: Path, entries: seq<TreeEntry>, e: TreeEntry)
    requires SortedByName(root, entries)
    ensures SortedByName(root, InsertByName(root, entries, e))
  {
    LessEqTotal(RelativeName(root, e.path), RelativeName(root, e.path));
    if entries == [] {
    } else if LessEq(RelativeName(root, e.path), RelativeName(root, entries[0].path)) {
      forall j | 0 <= j < |entries| ensures LessEq(RelativeName(root, e.path), RelativeName(root, entries[j].path)) {
        LessEqTransitive(RelativeName(root, e.path), RelativeName(root, entries[0].path),
                         RelativeName(root, entries[j].path));
      }
    } else {
      var rest := InsertByName(root, entries[1..], e);
      InsertKeepsSorted(root, entries[1..], e);
      LessEqTotal(RelativeName(root, e.path), RelativeName(root, entries[0].path));
      forall x | x in rest ensures LessEq(RelativeName(root, entries[0].path), RelativeName(root, x.path)) {
        if x in entries[1..] {
          var j :| 0 <= j < |entries[1..]| && x == entries[1..][j];
          assert x == entries[j + 1];
        }
      }
      assert forall j | 0 <= j < |rest| :: rest[j] in rest;
    }
  }

  lemma PermutedLists(fs: FileSystem, entries: seq<TreeEntry>, sorted: seq<TreeEntry>, listed: set<Path>)
    requires Lists(fs, entries, listed) && multiset(Paths(sorted)) == multiset(Paths(entries))
    requires forall e | e in sorted :: e in entries
    ensures Lists(fs, sorted, listed)
  {
    forall i | 0 <= i < |sorted| ensures sorted[i].path in fs && sorted[i] == EntryFor(fs, sorted[i].path) {
      assert sorted[i] in entries;
    }
  }

  lemma OneMorePath(entries: seq<TreeEntry>, i: nat)
    requires i < |entries|
    ensures multiset(Paths(entries[..i + 1])) == multiset(Paths(entries[..i])) + multiset{entries[i].path}
  {
    assert Paths(entries[..i + 1]) == Paths(entries[..i]) + [entries[i].path];
  }

  /** The final sort by name. */
  method SortByName(fs: FileSystem, root: Path, entries: seq<TreeEntry>, ghost listed: set<Path>)
    returns (sorted: seq<TreeEntry>)
    requires Lists(fs, entries, listed)
    ensures Lists(fs, sorted, listed) && SortedByName(root, sorted)
  {
    sorted := [];
    for i := 0 to |entries|
      invariant SortedByName(root, sorted) && multiset(Paths(sorted)) == multiset(Paths(entries[..i]))
      invariant forall e | e in sorted :: e in entries
    {
      InsertKeepsSorted(root, sorted, entries[i]);
      OneMorePath(entries, i);
      sorted := InsertByName(root, sorted, entries[i]);
    }
    assert entries[..|entries|] == entries;
    PermutedLists(fs, entries, sorted, listed);
  }

  /** Lists everything below the root, each entry once, with directories told from files and empty ones
      flagged, sorted by name; fails when the root is no directory. */
  method EnumerateRegularTree(fs: FileSystem, root: Path) returns (ok: bool, entries: seq<TreeEntry>)
    requires WellFormed(fs)
    ensures ok <==> root in fs && fs[root].Dir?
    ensures ok ==> Lists(fs, entries, AllBelow(fs, root)) && SortedByName(root, entries)
  {
    entries := [];
    ok := root in fs && fs[root].Dir?;
    if !ok { return; }
    var pending := [root];
    ghost var visited: set<Path>, listed: set<Path>, waiting: set<Path> := {}, {}, {root};
    assert Lists(fs, entries, listed) by { assert Paths(entries) == []; }
    while pending != []
      invariant WalkInv(fs, root, visited, listed, waiting)
      invariant Lists(fs, entries, listed) && EachOnce(pending, waiting)
      decreases fs.Keys - visited
    {
      var directory := pending[|pending| - 1];
      OnceLess(pending, waiting);
      VisitKeepsInv(fs, root, visited, listed, waiting, directory);
      var hasChild;
      entries, pending, hasChild :=
        Visit(fs, directory, entries, pending[..|pending| - 1], listed, waiting - {directory});
      listed, waiting := listed + FilesIn(fs, {directory}), waiting - {directory} + DirectoriesIn(fs, {directory});
      if directory != root {
        ListsOneMore(fs, entries, listed, directory);
        entries := entries + [TreeEntry(directory, true, !hasChild)];
        listed := listed + {directory};
      }
      visited := visited + {directory};
    }
    NothingWaits(fs, root, visited, listed, waiting);
    entries := SortByName(fs, root, entries, listed);
  }

  lemma NothingWaits(fs: FileSystem, root: Path, visited: set<Path>, listed: set<Path>, waiting: set<Path>)
    requires WellFormed(fs) && WalkInv(fs, root, visited, listed, waiting) && EachOnce([], waiting)
    ensures listed == AllBelow(fs, root)
  {
    assert forall p :: p in waiting ==> p in multiset(waiting);
    assert waiting == {};
    forall p | p in AllBelow(fs, root) ensures p in listed {
      BelowIsListed(fs, root, visited, listed, p);
    }
    forall p | p in listed ensures p in AllBelow(fs, root) {
      ListedIsBelow(fs, root, visited, listed, p);
    }
  }

  lemma BelowIsListed(fs: FileSystem, root: Path, visited: set<Path>, listed: set<Path>, p: Path)
    requires WellFormed(fs) && WalkInv(fs, root, visited, listed, {}) && p in fs && Below(root, p)
    ensures p in listed
  {
    AllVisited(fs, root, visited, listed, Up(p));
    if fs[p].Dir? {
      AllVisited(fs, root, visited, listed, p);
    } else {
      assert p in FilesIn(fs, visited);
    }
  }

  lemma ListedIsBelow(fs: FileSystem, root: Path, visited: set<Path>, listed: set<Path>, p: Path)
    requires WalkInv(fs, root, visited, listed, {}) && p in listed
    ensures p in fs && Below(root, p)
  {
    if p in FilesIn(fs, visited) {
      assert root <= Up(p) && p == Up(p) + [p[|p| - 1]];
    }
  }
}
