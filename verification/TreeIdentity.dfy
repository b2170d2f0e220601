/** The identity of a directory tree: a dictionary from entries to hashes, and its text. */
module TreeIdentity {
  import opened FileTree
  import opened Ordinal
  import opened TreeWalk

  // ------------------------------------------------------------------------------- ordered dictionaries

  predicate IsLeast(keys: set<string>, key: string) {
    key in keys && forall other | other in keys :: LessEq(key, other)
  }

  lemma {:induction false} LeastExists(keys: set<string>)
    requires keys != {}
    ensures exists key :: IsLeast(keys, key)
    decreases |keys|
  {
    var some :| some in keys;
    var rest := keys - {some};
    if rest == {} {
      LessEqTotal(some, some);
      assert keys == rest + {some};
      assert IsLeast(keys, some);
    } else {
      LeastExists(rest);
      var least :| IsLeast(rest, least);
      LessEqTotal(some, least);
      LessEqTotal(some, some);
      if LessEq(some, least) {
        forall other | other in keys ensures LessEq(some, other) {
          if other != some { LessEqTransitive(some, least, other); }
        }
        assert IsLeast(keys, some);
      } else {
        forall other | other in keys ensures LessEq(least, other) {}
        assert IsLeast(keys, least);
      }
    }
  }

  ghost function Least(keys: set<string>): (key: string)
    requires keys != {}
    ensures IsLeast(keys, key)
  {
    LeastExists(keys);
    var key :| IsLeast(keys, key);
    key
  }

  /** The dictionary's entries in key order. */
  ghost function Sorted(entries: map<string, string>): seq<(string, string)>
    decreases |entries|
  {
    if entries == map[] then []
    else
      var key := Least(entries.Keys);
      [(key, entries[key])] + Sorted(entries - {key})
  }

  lemma SortedFirst(entries: map<string, string>, key: string)
    requires entries != map[] && key == Least(entries.Keys)
    ensures Sorted(entries) != [] && Sorted(entries)[0] == (key, entries[key])
    ensures Sorted(entries)[1..] == Sorted(entries - {key})
    ensures entries == (entries - {key})[key := entries[key]]
  {
  }

  /** The sorted entries determine the dictionary. */
  lemma {:induction false} SortedIsInjective(a: map<string, string>, b: map<string, string>)
    requires Sorted(a) == Sorted(b)
    ensures a == b
    decreases |a|
  {
    if a == map[] || b == map[] {
    } else {
      var key, other := Least(a.Keys), Least(b.Keys);
      SortedFirst(a, key);
      SortedFirst(b, other);
      assert (key, a[key]) == (other, b[other]);
      SortedIsInjective(a - {key}, b - {key});
    }
  }

  // ------------------------------------------------------------------------------------------- the text

  function Line(entry: (string, string)): (r: string)
    ensures r != ""
  {
    entry.0 + "|" + entry.1 + "\n"
  }

  function Lines(entries: seq<(string, string)>): (r: string)
    ensures r == "" <==> entries == []
  {
    if entries == [] then "" else Line(entries[0]) + Lines(entries[1..])
  }

  ghost function IdentityText(version: string, entries: map<string, string>): string {
    version + "\n" + Lines(Sorted(entries))
  }

  lemma LeastIsUnique(keys: set<string>, a: string, b: string)
    requires IsLeast(keys, a) && IsLeast(keys, b)
    ensures a == b
  {
    LessEqAntisymmetric(a, b);
  }

  lemma LeastFirst(entries: map<string, string>, key: string)
    requires IsLeast(entries.Keys, key)
    ensures Lines(Sorted(entries)) == Line((key, entries[key])) + Lines(Sorted(entries - {key}))
  {
    LeastIsUnique(entries.Keys, key, Least(entries.Keys));
    assert Sorted(entries)[1..] == Sorted(entries - {key});
  }

  /** The digest of a text, such as SHA-256 in hexadecimal. */
  type Digest = string -> string

  /** No two texts have the same digest. */
  ghost predicate CollisionFree(digest: Digest) {
    forall x, y :: digest(x) == digest(y) ==> x == y
  }

  ghost function Identity(version: string, entries: map<string, string>, digest: Digest): string {
    digest(IdentityText(version, entries))
  }

  /** The version, then a line for each entry in key order. */
  method AppendEntries(version: string, entries: map<string, string>) returns (text: string)
    ensures text == IdentityText(version, entries)
  {
    text := version + "\n";
    var left := entries;
    while left != map[]
      invariant IdentityText(version, entries) == text + Lines(Sorted(left))
      decreases |left|
    {
      LeastExists(left.Keys);
      var key :| key in left.Keys && IsLeast(left.Keys, key);
      LeastFirst(left, key);
      text := text + Line((key, left[key]));
      left := left - {key};
    }
  }

  method BuildIdentity(version: string, entries: map<string, string>, digest: Digest) returns (identity: string)
    ensures identity == Identity(version, entries, digest)
  {
    var text := AppendEntries(version, entries);
    return digest(text);
  }

  predicate Without(s: string, c: char) {
    forall i | 0 <= i < |s| :: s[i] != c
  }

  /** A text is cut at the first occurrence of a character in one way only. */
  lemma {:induction false} CutOnce(a: string, b: string, c: char, restA: string, restB: string)
    requires Without(a, c) && Without(b, c)
    requires a + [c] + restA == b + [c] + restB
    ensures a == b && restA == restB
  {
    var s, t := a + [c] + restA, b + [c] + restB;
    assert s[|a|] == c && t[|b|] == c;
    assert forall i | 0 <= i < |a| :: s[i] == a[i];
    assert forall i | 0 <= i < |b| :: t[i] == b[i];
    assert |a| == |b|;
    assert s[..|a|] == a && t[..|b|] == b;
    assert s[|a| + 1..] == restA && t[|b| + 1..] == restB;
  }

  predicate CleanEntries(entries: seq<(string, string)>) {
    forall i | 0 <= i < |entries| :: Without(entries[i].0, '|') && Without(entries[i].1, '\n')
  }

  /** Entries whose keys hold no `|`, and whose values no line break, are determined by their lines. */
  lemma {:induction false} LinesAreInjective(a: seq<(string, string)>, b: seq<(string, string)>)
    requires CleanEntries(a) && CleanEntries(b) && Lines(a) == Lines(b)
    ensures a == b
  {
    if a == [] || b == [] {
    } else {
      var restA, restB := Lines(a[1..]), Lines(b[1..]);
      assert Lines(a) == a[0].0 + ['|'] + (a[0].1 + ['\n'] + restA);
      assert Lines(b) == b[0].0 + ['|'] + (b[0].1 + ['\n'] + restB);
      CutOnce(a[0].0, b[0].0, '|', a[0].1 + ['\n'] + restA, b[0].1 + ['\n'] + restB);
      CutOnce(a[0].1, b[0].1, '\n', restA, restB);
      LinesAreInjective(a[1..], b[1..]);
      assert a == [a[0]] + a[1..] && b == [b[0]] + b[1..];
    }
  }

  ghost predicate CleanMap(entries: map<string, string>) {
    forall key | key in entries :: Without(key, '|') && Without(entries[key], '\n')
  }

  lemma {:induction false} SortedIsClean(entries: map<string, string>)
    requires CleanMap(entries)
    ensures CleanEntries(Sorted(entries))
    decreases |entries|
  {
    if entries == map[] {
    } else {
      SortedIsClean(entries - {Least(entries.Keys)});
    }
  }

  /** Two dictionaries have the same text exactly when they are the same. */
  lemma TextIsFaithful(version: string, a: map<string, string>, b: map<string, string>)
    requires CleanMap(a) && CleanMap(b)
    ensures IdentityText(version, a) == IdentityText(version, b) <==> a == b
  {
    if IdentityText(version, a) == IdentityText(version, b) {
      var head := version + "\n";
      assert (head + Lines(Sorted(a)))[|head|..] == Lines(Sorted(a));
      assert (head + Lines(Sorted(b)))[|head|..] == Lines(Sorted(b));
      SortedIsClean(a);
      SortedIsClean(b);
      LinesAreInjective(Sorted(a), Sorted(b));
      SortedIsInjective(a, b);
    }
  }

  // --------------------------------------------------------------------------------- entries of a tree

  const BOOTSTRAP: string := "wii_bootstrap"

  predicate CleanName(name: string) {
    Without(name, '/') && Without(name, '|') && Without(name, '\n')
  }

  predicate CleanPath(path: Path) {
    forall i | 0 <= i < |path| :: CleanName(path[i])
  }

  lemma {:induction false} SlashedIsInjective(a: Path, b: Path)
    requires CleanPath(a) && CleanPath(b) && a != [] && b != [] && Slashed(a) == Slashed(b)
    ensures a == b
  {
    var headA, headB := a[0], b[0];
    assert CleanName(headA) && CleanName(headB);
    assert |a| > 1 ==> Slashed(a)[|headA|] == '/';
    assert |b| > 1 ==> Slashed(b)[|headB|] == '/';
    if |a| == 1 || |b| == 1 {
    } else {
      assert Slashed(a) == headA + ['/'] + Slashed(a[1..]) && Slashed(b) == headB + ['/'] + Slashed(b[1..]);
      CutOnce(headA, headB, '/', Slashed(a[1..]), Slashed(b[1..]));
      SlashedIsInjective(a[1..], b[1..]);
      assert a == [headA] + a[1..] && b == [headB] + b[1..];
    }
  }

  lemma {:induction false} SlashedIsClean(path: Path)
    requires CleanPath(path)
    ensures Without(Slashed(path), '|')
  {
    if path == [] {
    } else {
      assert CleanName(path[0]);
      SlashedIsClean(path[1..]);
    }
  }

  function FileKey(relative: Path): string {
    BOOTSTRAP + "/" + Slashed(relative)
  }

  function EmptyKey(relative: Path): string {
    "empty-directory:" + BOOTSTRAP + "/" + Slashed(relative)
  }

  function KeyFor(relative: Path, directory: bool): string {
    if directory then EmptyKey(relative) else FileKey(relative)
  }

  /** A key names one entry of one kind. */
  lemma KeysAreInjective(a: Path, directoryA: bool, b: Path, directoryB: bool)
    requires CleanPath(a) && CleanPath(b) && a != [] && b != []
    requires KeyFor(a, directoryA) == KeyFor(b, directoryB)
    ensures a == b && directoryA == directoryB
  {
    var file, empty := BOOTSTRAP + "/", "empty-directory:" + BOOTSTRAP + "/";
    assert file[0] == 'w' && empty[0] == 'e';
    assert KeyFor(a, directoryA)[0] == (if directoryA then 'e' else 'w');
    assert KeyFor(b, directoryB)[0] == (if directoryB then 'e' else 'w');
    var head := if directoryA then empty else file;
    assert KeyFor(a, directoryA)[|head|..] == Slashed(a) && KeyFor(b, directoryB)[|head|..] == Slashed(b);
    SlashedIsInjective(a, b);
  }

  type Hash = seq<bv8> -> string

  function ValueFor(node: Node, hash: Hash): string {
    if node.Dir? then "" else hash(node.bytes)
  }

  /** The entries that have a key: files, and directories without children. */
  predicate IsLeaf(fs: FileSystem, path: Path) {
    path in fs && (fs[path].File? || Children(fs, path) == {})
  }

  predicate LeafBelow(fs: FileSystem, root: Path, path: Path) {
    Below(root, path) && IsLeaf(fs, path)
  }

  ghost predicate CleanTree(fs: FileSystem, root: Path) {
    forall p | p in fs && Below(root, p) :: CleanPath(p[|root|..])
  }

  /** A leaf and its key in the dictionary. */
  predicate Records(entries: map<string, string>, fs: FileSystem, root: Path, path: Path, hash: Hash)
    requires LeafBelow(fs, root, path)
  {
    var key := KeyFor(path[|root|..], fs[path].Dir?);
    key in entries && entries[key] == ValueFor(fs[path], hash)
  }

  predicate ComesFrom(key: string, fs: FileSystem, root: Path, path: Path) {
    LeafBelow(fs, root, path) && key == KeyFor(path[|root|..], fs[path].Dir?)
  }

  /** The dictionary holds exactly the leaves of the tree. */
  ghost predicate Describes(entries: map<string, string>, fs: FileSystem, root: Path, hash: Hash) {
    (forall p | LeafBelow(fs, root, p) :: Records(entries, fs, root, p, hash)) &&
    (forall key | key in entries :: exists p :: ComesFrom(key, fs, root, p))
  }

  // -------------------------------------------------------------------------------- filling the dictionary

  /** The dictionary after the entries of a list of the tree. */
  ghost predicate DescribesSome(entries: map<string, string>, fs: FileSystem, root: Path, hash: Hash,
                                tree: seq<TreeEntry>) {
    (forall i | 0 <= i < |tree| ::
       LeafBelow(fs, root, tree[i].path) ==> Records(entries, fs, root, tree[i].path, hash)) &&
    (forall key | key in entries :: exists p :: ComesFrom(key, fs, root, p))
  }

  lemma OneMoreRecorded(entries: map<string, string>, fs: FileSystem, root: Path, hash: Hash, tree: seq<TreeEntry>,
                        p: Path)
    requires CleanTree(fs, root) && DescribesSome(entries, fs, root, hash, tree) && LeafBelow(fs, root, p)
    ensures var key := KeyFor(p[|root|..], fs[p].Dir?);
      DescribesSome(entries[key := ValueFor(fs[p], hash)], fs, root, hash, tree) &&
      Records(entries[key := ValueFor(fs[p], hash)], fs, root, p, hash)
  {
    var key := KeyFor(p[|root|..], fs[p].Dir?);
    var more := entries[key := ValueFor(fs[p], hash)];
    forall i | 0 <= i < |tree| && LeafBelow(fs, root, tree[i].path)
      ensures Records(more, fs, root, tree[i].path, hash)
    {
      var q := tree[i].path;
      assert Records(entries, fs, root, q, hash);
      if KeyFor(q[|root|..], fs[q].Dir?) == key {
        KeysAreInjective(q[|root|..], fs[q].Dir?, p[|root|..], fs[p].Dir?);
        assert q == root + q[|root|..] && p == root + p[|root|..];
      }
    }
    assert ComesFrom(key, fs, root, p);
    forall k | k in more ensures exists q :: ComesFrom(k, fs, root, q) {
      if k != key { assert k in entries; }
    }
  }

  /** Files under their relative path, empty directories under a key of their own; directories with children
      need none. `ok` is false when the directory is missing or has nothing in it. */
  method AddMappedDirectory(fs: FileSystem, directory: Path, hash: Hash)
    returns (ok: bool, entries: map<string, string>)
    requires WellFormed(fs)
    ensures ok <==> directory in fs && fs[directory].Dir? && AllBelow(fs, directory) != {}
    ensures ok && CleanTree(fs, directory) ==> Describes(entries, fs, directory, hash)
  {
    entries := map[];
    var tree: seq<TreeEntry>;
    ok, tree := EnumerateRegularTree(fs, directory);
    if !ok { return; }
    NothingListed(tree, AllBelow(fs, directory));
    if |tree| == 0 { return false, entries; }
    for i := 0 to |tree|
      invariant CleanTree(fs, directory) ==> DescribesSome(entries, fs, directory, hash, tree[..i])
    {
      var entry := tree[i];
      ListedIsBelow(fs, directory, tree, i);
      assert tree[..i + 1] == tree[..i] + [entry];
      if CleanTree(fs, directory) && IsLeaf(fs, entry.path) {
        OneMoreRecorded(entries, fs, directory, hash, tree[..i], entry.path);
      }
      if entry.isEmptyDirectory {
        entries := entries[EmptyKey(entry.path[|directory|..]) := ""];
      } else if !entry.isDirectory {
        entries := entries[FileKey(entry.path[|directory|..]) := hash(fs[entry.path].bytes)];
      }
    }
    assert tree[..|tree|] == tree;
    if CleanTree(fs, directory) { AllRecorded(entries, fs, directory, hash, tree); }
  }

  lemma NothingListed(tree: seq<TreeEntry>, listed: set<Path>)
    requires EachOnce(Paths(tree), listed)
    ensures |tree| == 0 <==> listed == {}
  {
    assert forall p :: p in listed <==> p in multiset(listed);
    if |tree| > 0 { assert Paths(tree)[0] in multiset(Paths(tree)); }
  }

  lemma ListedIsBelow(fs: FileSystem, root: Path, tree: seq<TreeEntry>, i: nat)
    requires Lists(fs, tree, AllBelow(fs, root)) && i < |tree|
    ensures tree[i].path in fs && Below(root, tree[i].path) && tree[i] == EntryFor(fs, tree[i].path)
  {
    assert Paths(tree)[i] in multiset(Paths(tree));
    assert tree[i].path in AllBelow(fs, root);
  }

  lemma AllRecorded(entries: map<string, string>, fs: FileSystem, root: Path, hash: Hash, tree: seq<TreeEntry>)
    requires Lists(fs, tree, AllBelow(fs, root)) && DescribesSome(entries, fs, root, hash, tree)
    ensures Describes(entries, fs, root, hash)
  {
    forall p | LeafBelow(fs, root, p) ensures Records(entries, fs, root, p, hash) {
      assert p in multiset(AllBelow(fs, root));
      assert p in Paths(tree);
      var i :| 0 <= i < |tree| && Paths(tree)[i] == p;
      assert tree[i].path == p;
    }
  }

  // -------------------------------------------------------------------- what the dictionary determines

  /** The same files with the same hashes, and the same directories, below both roots. */
  ghost predicate SameTree(fsA: FileSystem, rootA: Path, fsB: FileSystem, rootB: Path, hash: Hash) {
    forall rel: Path | rel != [] :: SameAt(fsA, rootA + rel, fsB, rootB + rel, hash)
  }

  predicate SameAt(fsA: FileSystem, a: Path, fsB: FileSystem, b: Path, hash: Hash) {
    (a in fsA <==> b in fsB) &&
    (a in fsA && b in fsB ==> fsA[a].Dir? == fsB[b].Dir? && ValueFor(fsA[a], hash) == ValueFor(fsB[b], hash))
  }

  /** Every directory holds, at some depth, a file or an empty directory, or is empty itself. */
  lemma {:induction false} HasLeaf(fs: FileSystem, path: Path, inside: set<Path>) returns (leaf: Path)
    requires path in fs && inside == (set p | p in fs && path <= p)
    ensures path <= leaf && IsLeaf(fs, leaf)
    decreases |inside|
  {
    if fs[path].File? || Children(fs, path) == {} {
      leaf := path;
    } else {
      var child :| child in Children(fs, path);
      assert child == path + [child[|path|]];
      var deeper := set p | p in fs && child <= p;
      assert path in inside && path !in deeper && deeper <= inside;
      FewerInside(deeper, inside, path);
      leaf := HasLeaf(fs, child, deeper);
    }
  }

  lemma FewerInside(fewer: set<Path>, more: set<Path>, path: Path)
    requires fewer <= more && path in more && path !in fewer
    ensures |fewer| < |more|
  {
    var rest := more - fewer;
    assert more == fewer + rest && path in rest;
  }

  /** A leaf of the one tree is one of the other. */
  lemma LeafIsShared(entries: map<string, string>, fsA: FileSystem, rootA: Path, fsB: FileSystem, rootB: Path,
                     hash: Hash, rel: Path)
    requires CleanTree(fsA, rootA) && CleanTree(fsB, rootB)
    requires Describes(entries, fsA, rootA, hash) && Describes(entries, fsB, rootB, hash)
    requires rel != [] && LeafBelow(fsA, rootA, rootA + rel)
    ensures LeafBelow(fsB, rootB, rootB + rel) && SameAt(fsA, rootA + rel, fsB, rootB + rel, hash)
  {
    var a := rootA + rel;
    assert a[|rootA|..] == rel;
    assert Records(entries, fsA, rootA, a, hash);
    var key := KeyFor(rel, fsA[a].Dir?);
    var b :| ComesFrom(key, fsB, rootB, b);
    KeysAreInjective(rel, fsA[a].Dir?, b[|rootB|..], fsB[b].Dir?);
    assert b == rootB + rel;
    assert Records(entries, fsB, rootB, b, hash);
  }

  /** What stands in the one tree stands in the other: a leaf as itself, a directory above some leaf. */
  lemma PresentIsShared(entries: map<string, string>, fsA: FileSystem, rootA: Path, fsB: FileSystem, rootB: Path,
                        hash: Hash, rel: Path)
    requires WellFormed(fsA) && WellFormed(fsB) && CleanTree(fsA, rootA) && CleanTree(fsB, rootB)
    requires Describes(entries, fsA, rootA, hash) && Describes(entries, fsB, rootB, hash)
    requires rel != [] && rootA + rel in fsA
    ensures SameAt(fsA, rootA + rel, fsB, rootB + rel, hash)
  {
    var a := rootA + rel;
    var leaf := HasLeaf(fsA, a, set p | p in fsA && a <= p);
    var below := leaf[|rootA|..];
    assert leaf == rootA + below && rel <= below;
    LeafIsShared(entries, fsA, rootA, fsB, rootB, hash, below);
    if below == rel {
      assert leaf == a;
    } else {
      var n := |rootB| + |rel|;
      assert (rootB + below)[..n] == rootB + rel;
      assert rootB + rel in fsB && fsB[rootB + rel].Dir?;
      DirectoryAbove(fsA, a, leaf);
    }
  }

  lemma DirectoryAbove(fs: FileSystem, above: Path, path: Path)
    requires WellFormed(fs) && path in fs && above <= path && above != path && above != []
    ensures above in fs && fs[above].Dir?
  {
    assert path[..|above|] == above;
  }

  lemma LeafIsLeaf(fsA: FileSystem, rootA: Path, fsB: FileSystem, rootB: Path, hash: Hash, rel: Path)
    requires SameTree(fsA, rootA, fsB, rootB, hash) && rel != [] && IsLeaf(fsA, rootA + rel)
    ensures IsLeaf(fsB, rootB + rel)
  {
    assert SameAt(fsA, rootA + rel, fsB, rootB + rel, hash);
    forall child | child in Children(fsB, rootB + rel) ensures fsA[rootA + rel].File? {
      var name := child[|child| - 1];
      assert child == rootB + (rel + [name]);
      assert SameAt(fsA, rootA + (rel + [name]), fsB, rootB + (rel + [name]), hash);
      assert Up(rootA + (rel + [name])) == rootA + rel;
      assert rootA + (rel + [name]) in fsA ==> rootA + (rel + [name]) in Children(fsA, rootA + rel);
    }
  }

  lemma EntryIsShared(a: map<string, string>, b: map<string, string>, fsA: FileSystem, rootA: Path,
                      fsB: FileSystem, rootB: Path, hash: Hash, key: string)
    requires Describes(a, fsA, rootA, hash) && Describes(b, fsB, rootB, hash)
    requires SameTree(fsA, rootA, fsB, rootB, hash) && key in a
    ensures key in b && a[key] == b[key]
  {
    var p :| ComesFrom(key, fsA, rootA, p);
    var rel := p[|rootA|..];
    assert p == rootA + rel && (rootB + rel)[|rootB|..] == rel;
    LeafIsLeaf(fsA, rootA, fsB, rootB, hash, rel);
    assert SameAt(fsA, rootA + rel, fsB, rootB + rel, hash);
    assert Records(a, fsA, rootA, p, hash);
    assert Records(b, fsB, rootB, rootB + rel, hash);
  }

  /** The dictionary determines the tree below the root, empty directories included, and is determined by it. */
  lemma DictionaryIsFaithful(a: map<string, string>, b: map<string, string>, fsA: FileSystem, rootA: Path,
                             fsB: FileSystem, rootB: Path, hash: Hash)
    requires WellFormed(fsA) && WellFormed(fsB) && CleanTree(fsA, rootA) && CleanTree(fsB, rootB)
    requires Describes(a, fsA, rootA, hash) && Describes(b, fsB, rootB, hash)
    ensures a == b <==> SameTree(fsA, rootA, fsB, rootB, hash)
  {
    if a == b {
      forall rel: Path | rel != [] ensures SameAt(fsA, rootA + rel, fsB, rootB + rel, hash) {
        if rootA + rel in fsA {
          PresentIsShared(a, fsA, rootA, fsB, rootB, hash, rel);
        } else if rootB + rel in fsB {
          PresentIsShared(a, fsB, rootB, fsA, rootA, hash, rel);
        }
      }
    }
    if SameTree(fsA, rootA, fsB, rootB, hash) {
      forall key | key in a ensures key in b && a[key] == b[key] {
        EntryIsShared(a, b, fsA, rootA, fsB, rootB, hash, key);
      }
      forall key | key in b ensures key in a {
        EntryIsShared(b, a, fsB, rootB, fsA, rootA, hash, key);
      }
    }
  }

  lemma KeyIsClean(relative: Path, directory: bool)
    requires CleanPath(relative)
    ensures Without(KeyFor(relative, directory), '|')
  {
    SlashedIsClean(relative);
  }

  lemma DescribedIsClean(entries: map<string, string>, fs: FileSystem, root: Path, hash: Hash)
    requires CleanTree(fs, root) && Describes(entries, fs, root, hash)
    requires forall bytes :: Without(hash(bytes), '\n')
    ensures CleanMap(entries)
  {
    forall key | key in entries ensures Without(key, '|') && Without(entries[key], '\n') {
      var p :| ComesFrom(key, fs, root, p);
      KeyIsClean(p[|root|..], fs[p].Dir?);
      assert Records(entries, fs, root, p, hash);
    }
  }

  // ------------------------------------------------------------------ the tree and the two mapped files

  const COEFFICIENTS: string := "dsp_coef.bin"

  const PIPELINE_CACHE: string := "initial_pipeline_cache.db"

  /** Where the assets of a product lie, or their sources: the bootstrap tree and two single files. */
  datatype Assets = Assets(fs: FileSystem, root: Path, coefficients: Path, pipelineCache: Path)

  predicate FilesPresent(s: Assets) {
    Exists(s.fs, s.coefficients, RegularFile) && Exists(s.fs, s.pipelineCache, RegularFile)
  }

  predicate Complete(s: Assets) {
    Exists(s.fs, s.root, Directory) && AllBelow(s.fs, s.root) != {} && FilesPresent(s)
  }

  /** The dictionary that is digested: the leaves of the tree and the two files. */
  ghost predicate DescribesAssets(entries: map<string, string>, s: Assets, hash: Hash) {
    FilesPresent(s) && Describes(entries - {COEFFICIENTS, PIPELINE_CACHE}, s.fs, s.root, hash) &&
    COEFFICIENTS in entries && entries[COEFFICIENTS] == hash(s.fs[s.coefficients].bytes) &&
    PIPELINE_CACHE in entries && entries[PIPELINE_CACHE] == hash(s.fs[s.pipelineCache].bytes)
  }

  ghost predicate SameAssets(a: Assets, b: Assets, hash: Hash)
    requires FilesPresent(a) && FilesPresent(b)
  {
    SameTree(a.fs, a.root, b.fs, b.root, hash) &&
    hash(a.fs[a.coefficients].bytes) == hash(b.fs[b.coefficients].bytes) &&
    hash(a.fs[a.pipelineCache].bytes) == hash(b.fs[b.pipelineCache].bytes)
  }

  /** No leaf of the tree has the key of one of the files. */
  lemma FileKeysAreNoLeaves(key: string, fs: FileSystem, root: Path, path: Path)
    requires ComesFrom(key, fs, root, path)
    ensures key != COEFFICIENTS && key != PIPELINE_CACHE
  {
    assert BOOTSTRAP[0] == 'w' && COEFFICIENTS[0] == 'd' && PIPELINE_CACHE[0] == 'i' && "empty-directory:"[0] == 'e';
    assert key[0] == if fs[path].Dir? then 'e' else 'w';
  }

  lemma FilesBesideTheTree(tree: map<string, string>, s: Assets, hash: Hash)
    requires FilesPresent(s) && Describes(tree, s.fs, s.root, hash)
    ensures var entries := tree[COEFFICIENTS := hash(s.fs[s.coefficients].bytes)]
                               [PIPELINE_CACHE := hash(s.fs[s.pipelineCache].bytes)];
      DescribesAssets(entries, s, hash)
  {
    var entries := tree[COEFFICIENTS := hash(s.fs[s.coefficients].bytes)]
                       [PIPELINE_CACHE := hash(s.fs[s.pipelineCache].bytes)];
    assert |COEFFICIENTS| == 12 && |PIPELINE_CACHE| == 25;
    forall key | key in tree ensures key != COEFFICIENTS && key != PIPELINE_CACHE {
      var p :| ComesFrom(key, s.fs, s.root, p);
      FileKeysAreNoLeaves(key, s.fs, s.root, p);
    }
    assert entries - {COEFFICIENTS, PIPELINE_CACHE} == tree;
  }

  /** Refuses a missing file; otherwise records it under its product name. */
  method AddRequiredMappedFile(fs: FileSystem, file: Path, name: string, hash: Hash, before: map<string, string>)
    returns (ok: bool, entries: map<string, string>)
    ensures ok <==> Exists(fs, file, RegularFile)
    ensures entries == if ok then before[name := hash(fs[file].bytes)] else before
  {
    ok, entries := Exists(fs, file, RegularFile), before;
    if ok { entries := entries[name := hash(fs[file].bytes)]; }
  }

  /** The identity of a set of runtime assets, of a product's or of their sources. */
  method ComputeRuntimeAssets(s: Assets, version: string, hash: Hash, digest: Digest)
    returns (ok: bool, identity: string, ghost entries: map<string, string>)
    requires WellFormed(s.fs)
    ensures ok <==> Complete(s)
    ensures ok && CleanTree(s.fs, s.root) ==>
      DescribesAssets(entries, s, hash) && identity == Identity(version, entries, digest)
  {
    identity, entries := "", map[];
    var tree, withFile, all;
    ok, tree := AddMappedDirectory(s.fs, s.root, hash);
    if !ok { return; }
    ok, withFile := AddRequiredMappedFile(s.fs, s.coefficients, COEFFICIENTS, hash, tree);
    if !ok { return; }
    ok, all := AddRequiredMappedFile(s.fs, s.pipelineCache, PIPELINE_CACHE, hash, withFile);
    if !ok { return; }
    if CleanTree(s.fs, s.root) { FilesBesideTheTree(tree, s, hash); }
    entries := all;
    identity := BuildIdentity(version, all, digest);
  }

  lemma AssetsAreClean(entries: map<string, string>, s: Assets, hash: Hash)
    requires CleanTree(s.fs, s.root) && DescribesAssets(entries, s, hash)
    requires forall bytes :: Without(hash(bytes), '\n')
    ensures CleanMap(entries)
  {
    DescribedIsClean(entries - {COEFFICIENTS, PIPELINE_CACHE}, s.fs, s.root, hash);
    assert Without(COEFFICIENTS, '|') && Without(PIPELINE_CACHE, '|');
    forall key | key in entries ensures Without(key, '|') && Without(entries[key], '\n') {
      if key != COEFFICIENTS && key != PIPELINE_CACHE {
        assert key in entries - {COEFFICIENTS, PIPELINE_CACHE};
      }
    }
  }

  lemma EntriesSplit(a: map<string, string>, b: map<string, string>, keys: set<string>)
    requires keys <= a.Keys && keys <= b.Keys
    ensures a == b <==> a - keys == b - keys && forall key | key in keys :: a[key] == b[key]
  {
    if a - keys == b - keys && forall key | key in keys :: a[key] == b[key] {
      forall key | key in a ensures key in b && a[key] == b[key] {
        assert key !in keys ==> key in a - keys && (a - keys)[key] == (b - keys)[key];
      }
      forall key | key in b ensures key in a {
        assert key !in keys ==> key in b - keys;
      }
    }
  }

  /** With names in the trees free of `/`, `|` and line breaks, two sets of assets have the same identity exactly
      when their trees have the same files with the same hashes and the same directories, and the single
      files have the same hashes - unless the digest has collided. */
  lemma IdentityIsFaithful(version: string, a: map<string, string>, b: map<string, string>, s: Assets, t: Assets,
                           hash: Hash, digest: Digest)
    requires WellFormed(s.fs) && WellFormed(t.fs) && CleanTree(s.fs, s.root) && CleanTree(t.fs, t.root)
    requires DescribesAssets(a, s, hash) && DescribesAssets(b, t, hash)
    requires (forall bytes :: Without(hash(bytes), '\n')) && CollisionFree(digest)
    ensures Identity(version, a, digest) == Identity(version, b, digest) <==> SameAssets(s, t, hash)
  {
    AssetsAreClean(a, s, hash);
    AssetsAreClean(b, t, hash);
    TextIsFaithful(version, a, b);
    var files := {COEFFICIENTS, PIPELINE_CACHE};
    EntriesSplit(a, b, files);
    DictionaryIsFaithful(a - files, b - files, s.fs, s.root, t.fs, t.root, hash);
  }

  /** The copies beside a product match the identity of their sources exactly if both are complete and the
      same. */
  method ProductRuntimeAssetsMatch(product: Assets, source: Assets, version: string, hash: Hash, digest: Digest)
    returns (matches: bool)
    requires WellFormed(product.fs) && WellFormed(source.fs)
    requires CleanTree(product.fs, product.root) && CleanTree(source.fs, source.root)
    requires (forall bytes :: Without(hash(bytes), '\n')) && CollisionFree(digest)
    ensures matches <==> Complete(product) && Complete(source) && SameAssets(product, source, hash)
  {
    var known, expected, sourceEntries := ComputeRuntimeAssets(source, version, hash, digest);
    if !known { return false; }
    var ok, identity, entries := ComputeRuntimeAssets(product, version, hash, digest);
    if !ok { return false; }
    IdentityIsFaithful(version, entries, sourceEntries, product, source, hash, digest);
    return identity == expected;
  }
}
