/** A file system as a finite map from paths to nodes, with the renames and deletions an install
    transaction performs. A path is the sequence of its case-folded components, so one path contains
    another exactly when it is a prefix of it. */
module FileTree {

  type Path = seq<string>

  datatype Node = File(bytes: seq<bv8>) | Dir

  datatype Kind = Directory | RegularFile

  type FileSystem = map<Path, Node>

  /** Everything at and below a path, keyed by the position relative to it. */
  type Tree = imap<Path, Node>

  const NOTHING: Tree := imap[]

  ghost function Subtree(fs: FileSystem, at: Path): Tree {
    imap below: Path | at + below in fs :: fs[at + below]
  }

  /** A relative path with forward slashes. */
  function Slashed(relative: Path): string {
    if relative == [] then "" else if |relative| == 1 then relative[0] else relative[0] + "/" + Slashed(relative[1..])
  }

  predicate Overlap(left: Path, right: Path) {
    left <= right || right <= left
  }

  /** No two of the paths are the same or contain one another. */
  ghost predicate PairwiseDisjoint(paths: seq<Path>) {
    forall i, j | 0 <= i < |paths| && 0 <= j < |paths| && i != j :: !Overlap(paths[i], paths[j])
  }

  predicate Exists(fs: FileSystem, path: Path, kind: Kind) {
    path in fs && fs[path].Dir? == kind.Directory?
  }

  predicate ExistsAsOtherKind(fs: FileSystem, path: Path, kind: Kind) {
    path in fs && fs[path].Dir? != kind.Directory?
  }

  /** What every real file system keeps: whatever contains a node is a directory. */
  ghost predicate WellFormed(fs: FileSystem) {
    forall path, n | path in fs && 1 <= n < |path| :: path[..n] in fs && fs[path[..n]].Dir?
  }

  // ------------------------------------------------------------------ creating parent directories

  predicate ParentsBlocked(fs: FileSystem, path: Path) {
    exists n | 1 <= n < |path| :: path[..n] in fs && fs[path[..n]].File?
  }

  predicate OpenWay(fs: FileSystem, path: Path) {
    forall n | 1 <= n < |path| :: path[..n] in fs && fs[path[..n]].Dir?
  }

  function MakeParents(fs: FileSystem, path: Path): FileSystem {
    fs + map p | p in Ancestors(path) && p !in fs :: Dir
  }

  /** A creation that got as far as the ancestors shorter than `k`. */
  function MakeParentsUpTo(fs: FileSystem, path: Path, k: nat): FileSystem
    requires k <= |path|
  {
    MakeParents(fs, path[..k])
  }

  /** At most missing ancestors have been created. */
  ghost predicate SomeParents(fs: FileSystem, after: FileSystem, path: Path) {
    forall p: Path ::
      (p in fs ==> p in after && after[p] == fs[p]) &&
      (p in after && p !in fs ==> after[p].Dir? && p in Ancestors(path))
  }

  function Ancestors(path: Path): set<Path> {
    set n | 1 <= n < |path| :: path[..n]
  }

  // ------------------------------------------------------------------------- renaming and deleting

  /** The rename of a file or a whole directory tree. */
  function Rename(fs: FileSystem, source: Path, target: Path): FileSystem
    requires !Overlap(source, target)
  {
    var moved := set p | p in fs && source <= p :: target + p[|source|..];
    (map p | p in fs && !(source <= p) :: fs[p]) +
    (map p | p in moved && target <= p && source + p[|target|..] in fs :: fs[source + p[|target|..]])
  }

  /** What a deletion that got no further than `kept` leaves: the kept nodes all of whose containers
      below the deleted path were kept too. The deleted path itself goes last. */
  function Prune(fs: FileSystem, at: Path, kept: set<Path>): FileSystem {
    map p | p in fs && (at <= p ==> forall n | |at| < n <= |p| :: p[..n] in kept) :: fs[p]
  }

  function Remove(fs: FileSystem, at: Path): FileSystem {
    map p | p in fs && !(at <= p) :: fs[p]
  }

  // --------------------------------------------------------------------------------------- locality

  /** The step from `fs` to `after` changed nothing outside the trees at `a` and `b`, except that it
      may have created directories on the way to `b`. */
  ghost predicate Local(fs: FileSystem, after: FileSystem, a: Path, b: Path) {
    forall p: Path :: !(a <= p) && !(b <= p) ==>
      (p in fs ==> p in after && after[p] == fs[p]) &&
      (p in after && p !in fs ==> after[p].Dir? && p < b)
  }

  // ------------------------------------------------------------------------- temporaries of writes

  /** The sibling an atomic write of `path` goes to first. */
  function Temporary(path: Path, suffix: string): Path
    requires path != []
  {
    path[..|path| - 1] + [path[|path| - 1] + ".tmp-" + suffix]
  }

  lemma TemporaryIsOne(path: Path, suffix: string)
    requires path != []
    ensures IsTemporaryOf(path, Temporary(path, suffix))
  {
    var name := path[|path| - 1];
    assert name + ".tmp-" + suffix == (name + ".tmp-") + suffix;
  }

  predicate IsTemporaryOf(path: Path, t: Path) {
    path != [] && |t| == |path| && t[..|path| - 1] == path[..|path| - 1] && path[|path| - 1] + ".tmp-" <= t[|path| - 1]
  }

  /** No temporary of `target` lies at or below the path. */
  ghost predicate ClearOfTemporaries(target: Path, path: Path) {
    forall t: Path | IsTemporaryOf(target, t) :: !(path <= t)
  }

  /** A path apart from the target that is no temporary of it is above none either. */
  lemma ApartFromTemporaries(target: Path, path: Path)
    requires !(path <= target) && !IsTemporaryOf(target, path)
    ensures ClearOfTemporaries(target, path)
  {
    forall t: Path | IsTemporaryOf(target, t) ensures !(path <= t) {
      var parent := t[..|t| - 1];
      assert parent <= target;
      assert path <= t && |path| < |t| ==> path <= parent;
    }
  }

  /** At most a temporary of `target` has appeared. */
  ghost predicate Littered(fs: FileSystem, after: FileSystem, target: Path) {
    forall p: Path ::
      (p in fs ==> p in after && after[p] == fs[p]) &&
      (p in after && p !in fs ==> after[p].File? && IsTemporaryOf(target, p))
  }

  /** At and below `target` anything; apart from it, at most directories on the way and a temporary. */
  ghost predicate Written(fs: FileSystem, after: FileSystem, target: Path) {
    forall p: Path | !(target <= p) ::
      (p in fs ==> p in after && after[p] == fs[p]) &&
      (p in after && p !in fs ==> (after[p].Dir? && p < target) || (after[p].File? && IsTemporaryOf(target, p)))
  }

  lemma LitteredKeepsSubtree(fs: FileSystem, after: FileSystem, target: Path, r: Path)
    requires Littered(fs, after, target) && ClearOfTemporaries(target, r)
    ensures Subtree(after, r) == Subtree(fs, r)
  {
    forall below: Path
      ensures r + below in after <==> r + below in fs
      ensures r + below in fs ==> after[r + below] == fs[r + below]
    {
      assert r <= r + below;
    }
  }

  lemma WrittenKeepsSubtree(fs: FileSystem, after: FileSystem, target: Path, r: Path)
    requires Written(fs, after, target) && !Overlap(r, target) && ClearOfTemporaries(target, r)
    ensures Subtree(after, r) == Subtree(fs, r)
  {
    forall below: Path
      ensures r + below in after <==> r + below in fs
      ensures r + below in fs ==> after[r + below] == fs[r + below]
    {
      DisjointBelow(r, target, below);
      assert r <= r + below;
    }
  }

  lemma TemporaryHasOpenWay(fs: FileSystem, path: Path, t: Path)
    requires IsTemporaryOf(path, t) && OpenWay(fs, path)
    ensures OpenWay(fs, t)
  {
    var parent := t[..|t| - 1];
    assert parent == path[..|path| - 1];
    forall n | 1 <= n < |t| ensures t[..n] in fs && fs[t[..n]].Dir? {
      assert t[..n] == parent[..n] == path[..n];
    }
  }

  lemma TemporaryKeepsWellFormed(fs: FileSystem, path: Path, t: Path, bytes: seq<bv8>)
    requires WellFormed(fs) && IsTemporaryOf(path, t) && t !in fs && OpenWay(fs, path)
    ensures WellFormed(fs[t := File(bytes)]) && Littered(fs, fs[t := File(bytes)], path)
  {
    TemporaryHasOpenWay(fs, path, t);
    WriteKeepsWellFormed(fs, t, bytes);
  }

  lemma DisjointBelow(r: Path, a: Path, below: Path)
    requires !Overlap(r, a)
    ensures !(a <= r + below)
  {
    if |a| <= |r| {
      assert (r + below)[..|a|] == r[..|a|];
    } else if |a| <= |r + below| {
      assert (r + below)[..|a|][..|r|] == r;
    }
  }

  lemma LocalKeepsSubtree(fs: FileSystem, after: FileSystem, a: Path, b: Path, r: Path)
    requires Local(fs, after, a, b)
    requires !Overlap(r, a) && !Overlap(r, b)
    ensures Subtree(after, r) == Subtree(fs, r)
  {
    forall below: Path
      ensures r + below in after <==> r + below in fs
      ensures r + below in fs ==> after[r + below] == fs[r + below]
    {
      DisjointBelow(r, a, below);
      DisjointBelow(r, b, below);
      assert r <= r + below;
    }
  }

  lemma RootOfSubtree(fs: FileSystem, at: Path)
    ensures at in fs <==> [] in Subtree(fs, at)
    ensures at in fs ==> Subtree(fs, at)[[]] == fs[at]
  {
    assert at + [] == at;
  }

  lemma NothingBelowAMissingNode(fs: FileSystem, at: Path)
    requires WellFormed(fs) && at !in fs && at != []
    ensures Subtree(fs, at) == NOTHING
  {
    forall below: Path ensures at + below !in fs {
      assert (at + below)[..|at|] == at;
      if below == [] { assert at + below == at; }
    }
  }

  lemma NothingMeansAbsent(fs: FileSystem, at: Path, p: Path)
    requires Subtree(fs, at) == NOTHING && at <= p
    ensures p !in fs
  {
    assert p == at + p[|at|..];
    assert p[|at|..] !in Subtree(fs, at);
  }

  lemma ParentsEffect(fs: FileSystem, after: FileSystem, path: Path, source: Path)
    requires SomeParents(fs, after, path) && !Overlap(source, path)
    ensures Local(fs, after, source, path)
    ensures Subtree(after, path) == Subtree(fs, path)
    ensures Subtree(after, source) == Subtree(fs, source)
  {
    forall p | p in Ancestors(path) ensures p < path { }
    forall below: Path ensures path + below !in Ancestors(path) {
      forall n | 1 <= n < |path| ensures path[..n] != path + below {
        assert |path[..n]| < |path + below|;
      }
    }
    forall below: Path ensures source + below !in Ancestors(path) {
      forall n | 1 <= n < |path| ensures path[..n] != source + below {
        DisjointBelow(path, source, []);
        assert !(source <= path[..n]);
        assert source <= source + below;
      }
    }
  }

  lemma ParentsOnlyAbove(fs: FileSystem, after: FileSystem, path: Path)
    requires SomeParents(fs, after, path)
    ensures Local(fs, after, path, path)
    ensures path in after <==> path in fs
    ensures path in fs ==> after[path] == fs[path]
  {
    forall p | p in Ancestors(path) ensures p < path { }
  }

  /** Where each node of a renamed tree comes from. */
  lemma RenameAt(fs: FileSystem, source: Path, target: Path, p: Path)
    requires !Overlap(source, target)
    requires Subtree(fs, target) == NOTHING
    ensures target <= p ==>
      var origin := source + p[|target|..];
      (p in Rename(fs, source, target) <==> origin in fs) &&
      (origin in fs ==> Rename(fs, source, target)[p] == fs[origin])
    ensures source <= p ==> p !in Rename(fs, source, target)
    ensures !(source <= p) && !(target <= p) ==>
      (p in Rename(fs, source, target) <==> p in fs) &&
      (p in fs ==> Rename(fs, source, target)[p] == fs[p])
  {
    var moved := set q | q in fs && source <= q :: target + q[|source|..];
    if target <= p {
      NothingMeansAbsent(fs, target, p);
      var origin := source + p[|target|..];
      assert p == target + p[|target|..] && origin[|source|..] == p[|target|..];
      assert origin in fs ==> p in moved;
    }
    if source <= p {
      assert p == source + p[|source|..];
      DisjointBelow(source, target, p[|source|..]);
    }
  }

  lemma RenameEffect(fs: FileSystem, source: Path, target: Path)
    requires !Overlap(source, target)
    requires Subtree(fs, target) == NOTHING
    ensures Local(fs, Rename(fs, source, target), source, target)
    ensures Subtree(Rename(fs, source, target), target) == Subtree(fs, source)
    ensures Subtree(Rename(fs, source, target), source) == NOTHING
  {
    forall below: Path
      ensures target + below in Rename(fs, source, target) <==> source + below in fs
      ensures source + below in fs ==> Rename(fs, source, target)[target + below] == fs[source + below]
      ensures source + below !in Rename(fs, source, target)
    {
      assert (target + below)[|target|..] == below;
      RenameAt(fs, source, target, target + below);
      RenameAt(fs, source, target, source + below);
    }
    forall p: Path | !(source <= p) && !(target <= p)
      ensures p in Rename(fs, source, target) <==> p in fs
      ensures p in fs ==> Rename(fs, source, target)[p] == fs[p]
    {
      RenameAt(fs, source, target, p);
    }
  }

  lemma PruneEffect(fs: FileSystem, at: Path, kept: set<Path>)
    requires at in fs
    ensures Local(fs, Prune(fs, at, kept), at, at)
    ensures at in Prune(fs, at, kept) && Prune(fs, at, kept)[at] == fs[at]
  {
  }

  lemma RemoveEffect(fs: FileSystem, at: Path)
    ensures Local(fs, Remove(fs, at), at, at)
    ensures Subtree(Remove(fs, at), at) == NOTHING
  {
  }

  // ---------------------------------------------------------- a file system stays a file system

  lemma MakeParentsKeepsWellFormed(fs: FileSystem, path: Path)
    requires WellFormed(fs) && !ParentsBlocked(fs, path)
    ensures WellFormed(MakeParents(fs, path))
    ensures forall n | 1 <= n < |path| :: path[..n] in MakeParents(fs, path) && MakeParents(fs, path)[path[..n]].Dir?
  {
    var after := MakeParents(fs, path);
    forall n | 1 <= n < |path| ensures path[..n] in after && after[path[..n]].Dir? {
      assert path[..n] in Ancestors(path);
    }
    forall p, n | p in after && 1 <= n < |p| ensures p[..n] in after && after[p[..n]].Dir? {
      if p !in fs {
        assert p in Ancestors(path);
        assert p == path[..|p|] && p[..n] == path[..n];
      }
    }
  }

  lemma UpToIsSomeParents(fs: FileSystem, path: Path, k: nat)
    requires WellFormed(fs) && !ParentsBlocked(fs, path) && k <= |path|
    ensures SomeParents(fs, MakeParentsUpTo(fs, path, k), path) && WellFormed(MakeParentsUpTo(fs, path, k))
  {
    forall n | 1 <= n < k ensures path[..k][..n] == path[..n] && path[..n] in Ancestors(path) { }
    MakeParentsKeepsWellFormed(fs, path[..k]);
  }

  lemma RenameKeepsWellFormed(fs: FileSystem, source: Path, target: Path)
    requires WellFormed(fs) && source in fs && source != [] && !Overlap(source, target)
    requires Subtree(fs, target) == NOTHING
    requires forall n | 1 <= n < |target| :: target[..n] in fs && fs[target[..n]].Dir?
    ensures WellFormed(Rename(fs, source, target))
  {
    var after := Rename(fs, source, target);
    forall path, n | path in after && 1 <= n < |path|
      ensures path[..n] in after && after[path[..n]].Dir?
    {
      RenameAt(fs, source, target, path);
      RenameAt(fs, source, target, path[..n]);
      if target <= path {
        var origin := source + path[|target|..];
        if |target| <= n {
          assert path[..n][|target|..] == path[|target|..][..n - |target|];
          assert origin[..|source| + n - |target|] == source + path[..n][|target|..];
        } else {
          assert path[..n] == target[..n];
          assert !(source <= target[..n]);
        }
      } else {
        assert source <= path[..n] ==> source <= path;
      }
    }
  }

  lemma PruneKeepsWellFormed(fs: FileSystem, at: Path, kept: set<Path>)
    requires WellFormed(fs)
    ensures WellFormed(Prune(fs, at, kept))
  {
    var after := Prune(fs, at, kept);
    forall p, n | p in after && 1 <= n < |p| ensures p[..n] in after && after[p[..n]].Dir? {
      assert p[..n] in fs;
      if at <= p[..n] {
        forall m | |at| < m <= |p[..n]| ensures p[..n][..m] in kept {
          assert p[..n][..m] == p[..m];
        }
      }
    }
  }

  lemma RemoveKeepsWellFormed(fs: FileSystem, at: Path)
    requires WellFormed(fs)
    ensures WellFormed(Remove(fs, at))
  {
    forall p, n | p in Remove(fs, at) && 1 <= n < |p| ensures p[..n] in Remove(fs, at) {
      assert at <= p[..n] ==> at <= p;
    }
  }

  lemma WriteKeepsWellFormed(fs: FileSystem, path: Path, bytes: seq<bv8>)
    requires WellFormed(fs)
    requires path in fs ==> fs[path].File?
    requires OpenWay(fs, path)
    ensures WellFormed(fs[path := File(bytes)])
    ensures Local(fs, fs[path := File(bytes)], path, path)
  {
  }
}
