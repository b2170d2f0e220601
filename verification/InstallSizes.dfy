/** Transactions of any size are accepted. */
module InstallSizes {
  import opened FileTree
  import opened Paths
  import opened InstallJournal
  import opened InstallTransactions

  const DISK: Path := ["C:"]
  const INSTALLED: Path := ["C:", "App"]
  const STAGED: Path := ["C:", "Staged"]
  const CONFIG: Path := ["C:", "Config.toml"]

  function StagedPath(i: nat): Path {
    STAGED + [D4(i)]
  }

  function StagedEntry(i: nat): PublishEntry {
    PublishEntry(StagedPath(i), INSTALLED + [D4(i)], RegularFile)
  }

  function StagedEntries(n: nat): seq<PublishEntry> {
    seq(n, i requires 0 <= i < n => StagedEntry(i))
  }

  function StagedPaths(n: nat): set<Path> {
    set i | 0 <= i < n :: StagedPath(i)
  }

  /** A fresh installation and `n` staged files. */
  function StagedFiles(n: nat): FileSystem {
    map[DISK := Dir, INSTALLED := Dir, STAGED := Dir] +
    map p | p in StagedPaths(n) :: File([])
  }

  lemma StagedFilesAt(n: nat, p: Path)
    ensures p in StagedFiles(n) <==>
            p == DISK || p == INSTALLED || p == STAGED || exists i | 0 <= i < n :: p == StagedPath(i)
    ensures p in StagedFiles(n) ==> StagedFiles(n)[p] == if |p| == 3 then File([]) else Dir
  {
    StagedPathsAt(n, p);
  }

  lemma StagedPathsAt(n: nat, p: Path)
    ensures p in StagedPaths(n) <==> exists i | 0 <= i < n :: p == StagedPath(i)
    ensures p in StagedPaths(n) ==> |p| == 3
  {
  }

  lemma StagedApart(i: nat, j: nat)
    ensures !PathsOverlap(StagedEntry(i).prepared, StagedEntry(j).destination)
    ensures i != j ==> !Overlap(StagedEntry(i).prepared, StagedEntry(j).prepared)
    ensures i != j ==> !Overlap(StagedEntry(i).destination, StagedEntry(j).destination)
    ensures !Overlap(StagedEntry(i).prepared, StagedEntry(j).destination)
  {
    if i != j && D4(i) == D4(j) { D4IsInjective(i, j); }
    assert StagedEntry(i).prepared[1] == "Staged" && StagedEntry(j).destination[1] == "App";
    assert StagedEntry(i).prepared[2] == D4(i) && StagedEntry(j).prepared[2] == D4(j);
    assert StagedEntry(i).destination[2] == D4(i) && StagedEntry(j).destination[2] == D4(j);
  }

  lemma StagedEntryAcceptable(n: nat, i: nat)
    requires i < n
    ensures EntryAcceptable(StagedFiles(n), INSTALLED, StagedEntry(i))
  {
    StagedFilesAt(n, StagedEntry(i).prepared);
    StagedFilesAt(n, StagedEntry(i).destination);
    StagedApart(i, i);
  }

  lemma StagedAcceptable(n: nat)
    ensures Acceptable(StagedFiles(n), INSTALLED, StagedEntries(n))
  {
    forall i | 0 <= i < n ensures EntryAcceptable(StagedFiles(n), INSTALLED, StagedEntries(n)[i]) {
      StagedEntryAcceptable(n, i);
    }
    forall i, j | 0 <= j < i < n ensures PairAcceptable(StagedEntries(n)[i], StagedEntries(n)[j]) {
      StagedApart(i, j);
      StagedApart(j, i);
    }
  }

  lemma StagedDisjoint(n: nat)
    ensures PairwiseDisjoint(AllPaths(StagedEntries(n)))
  {
    var paths := AllPaths(StagedEntries(n));
    forall i, j | 0 <= i < |paths| && 0 <= j < |paths| && i != j ensures !Overlap(paths[i], paths[j]) {
      StagedPathsApart(n, i, j);
    }
  }

  lemma StagedPathAt(n: nat, i: nat)
    requires i < 2 * n
    ensures |AllPaths(StagedEntries(n))| == 2 * n
    ensures AllPaths(StagedEntries(n))[i] == if i < n then StagedEntry(i).prepared else StagedEntry(i - n).destination
  {
    var requests := StagedEntries(n);
    AllPathsAt(requests, i);
    assert requests[if i < n then i else i - n] == StagedEntry(if i < n then i else i - n);
  }

  lemma AllPathsAt(requests: seq<PublishEntry>, i: nat)
    requires i < 2 * |requests|
    ensures |AllPaths(requests)| == 2 * |requests|
    ensures AllPaths(requests)[i] ==
            if i < |requests| then requests[i].prepared else requests[i - |requests|].destination
  {
  }

  lemma StagedPathsApart(n: nat, i: nat, j: nat)
    requires i < 2 * n && j < 2 * n && i != j
    ensures |AllPaths(StagedEntries(n))| == 2 * n
    ensures !Overlap(AllPaths(StagedEntries(n))[i], AllPaths(StagedEntries(n))[j])
  {
    StagedPathAt(n, i);
    StagedPathAt(n, j);
    var k, l := if i < n then i else i - n, if j < n then j else j - n;
    StagedApart(k, l);
    StagedApart(l, k);
  }

  lemma StagedTree(n: nat)
    ensures WellFormed(StagedFiles(n)) && CONFIG !in StagedFiles(n)
  {
    var files := StagedFiles(n);
    StagedFilesAt(n, CONFIG);
    forall path, k | path in files && 1 <= k < |path| ensures path[..k] in files && files[path[..k]].Dir? {
      StagedFilesAt(n, path);
      StagedFilesAt(n, path[..k]);
      assert k == 1 ==> path[..k] == DISK;
      assert k == 2 ==> path[..k] == STAGED;
    }
  }

  /** Nothing of the installation runs through the work directory. */
  lemma StagedElsewhere(n: nat, path: Path)
    requires |path| >= 2 && path[1] == WorkRoot(INSTALLED, "", 1)[1]
    ensures path !in StagedFiles(n)
  {
    assert WorkRoot(INSTALLED, "", 1)[1][0] == '.';
    StagedFilesAt(n, path);
  }

  lemma StagedWorkRoot(n: nat)
    ensures Subtree(StagedFiles(n), WorkRoot(INSTALLED, "", 1)) == NOTHING
  {
    var w := WorkRoot(INSTALLED, "", 1);
    forall below: Path ensures w + below !in StagedFiles(n) {
      StagedElsewhere(n, w + below);
    }
  }

  lemma StagedWayIsOpen(n: nat, inside: Path)
    requires |inside| >= 2 && inside[0] == "C:" && inside[1] == WorkRoot(INSTALLED, "", 1)[1]
    ensures !ParentsBlocked(StagedFiles(n), inside)
  {
    forall k | 2 <= k < |inside| ensures inside[..k] !in StagedFiles(n) {
      StagedElsewhere(n, inside[..k]);
    }
    assert inside[..1] == DISK;
  }

  lemma StagedOwnFile(target: Path, n: nat)
    requires |target| == 2 && target[1] != "App" && target[1] != "Staged"
    ensures FileOfItsOwn(target, StagedEntries(n))
  {
    forall i | 0 <= i < n
      ensures !Overlap(StagedEntry(i).prepared, target) && !Overlap(StagedEntry(i).destination, target)
    {
      assert StagedEntry(i).prepared[1] == "Staged" && StagedEntry(i).destination[1] == "App";
    }
  }

  lemma StagedPlaceOpen(n: nat, i: nat)
    ensures !ParentsBlocked(StagedFiles(n), StagedEntry(i).destination)
  {
    var d := StagedEntry(i).destination;
    assert |d| == 3 && d[..1] == DISK && d[..2] == INSTALLED;
    StagedFilesAt(n, DISK);
    StagedFilesAt(n, INSTALLED);
  }

  lemma StagedPlacesOpen(n: nat)
    ensures !ParentsBlocked(StagedFiles(n), CONFIG)
    ensures forall i | 0 <= i < n :: !ParentsBlocked(StagedFiles(n), StagedEntries(n)[i].destination)
  {
    assert CONFIG[..1] == DISK;
    StagedFilesAt(n, DISK);
    forall i | 0 <= i < n ensures !ParentsBlocked(StagedFiles(n), StagedEntries(n)[i].destination) {
      StagedPlaceOpen(n, i);
    }
  }

  /** Any number of entries can meet what `Begin` asks for, so the limit does exclude transactions it accepts. */
  lemma StagedPlacesApart()
    ensures var w, j := WorkRoot(INSTALLED, "", 1), JournalPath(INSTALLED, "");
      w != INSTALLED && !Overlap(CONFIG, w) && !IsTemporaryOf(CONFIG, w) && !IsTemporaryOf(j, CONFIG)
  {
    var w, j := WorkRoot(INSTALLED, "", 1), JournalPath(INSTALLED, "");
    assert w[1][0] == '.' && j[1][0] == '.' && CONFIG[1][0] == 'C';
  }

  lemma AnySizeCanBegin(n: nat)
    ensures var files, requests := StagedFiles(n), StagedEntries(n);
      |requests| == n && Acceptable(files, INSTALLED, requests) &&
      Beginnable(files, CONFIG, INSTALLED, "", 1, requests) &&
      Unblocked(files, CONFIG, WorkRoot(INSTALLED, "", 1), requests)
  {
    StagedAcceptable(n);
    StagedDisjoint(n);
    StagedTree(n);
    StagedWorkRoot(n);
    StagedWayIsOpen(n, WorkRoot(INSTALLED, "", 1) + ["backup", "0000"]);
    StagedPlacesOpen(n);
    StagedPlacesApart();
    StagedOwnFile(CONFIG, n);
    StagedOwnFile(JournalPath(INSTALLED, ""), n);
  }
}
