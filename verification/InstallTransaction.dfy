/** The install transaction itself: publish, record, commit, roll back and recover, each operation of
    which may be the last one before the power goes. */
module InstallTransactions {
  import opened Basics
  import opened FileTree
  import opened Paths
  import opened InstallJournal
  import opened InstallRecovery
  import opened InstallMachine

  /** A file of its own: no requested path lies at, above or below it, or has the name of a temporary of it. */
  ghost predicate FileOfItsOwn(target: Path, requests: seq<PublishEntry>) {
    forall i | 0 <= i < |requests| ::
      !Overlap(requests[i].prepared, target) && !Overlap(requests[i].destination, target) &&
      !IsTemporaryOf(target, requests[i].prepared) && !IsTemporaryOf(target, requests[i].destination)
  }

  /** What the source leaves to the caller of `Begin`, or to chance. */
  ghost predicate Beginnable(files: FileSystem, configPath: Path, root: Path, scopeId: string, id: nat,
                             requests: seq<PublishEntry>)
    requires |root| > 1
  {
    var workRoot := WorkRoot(root, scopeId, id);
    WellFormed(files) &&
    // a fresh identifier names nothing that exists
    id != EMPTY_ID && workRoot != root && Subtree(files, workRoot) == NOTHING &&
    // drive roots, which the overlap test does not see through
    PairwiseDisjoint(AllPaths(requests)) &&
    (forall i | 0 <= i < |requests| :: requests[i].prepared != [] && requests[i].destination != []) &&
    // the runtime configuration and the journal are files of their own
    configPath != [] && !Overlap(configPath, workRoot) && !IsTemporaryOf(configPath, workRoot) &&
    (configPath in files ==> files[configPath].File?) &&
    FileOfItsOwn(configPath, requests) && FileOfItsOwn(JournalPath(root, scopeId), requests) &&
    !IsTemporaryOf(JournalPath(root, scopeId), configPath)
  }

  /** No file stands where a directory is needed on the way to a destination, a backup or the configuration. */
  ghost predicate Unblocked(files: FileSystem, configPath: Path, workRoot: Path, requests: seq<PublishEntry>) {
    !ParentsBlocked(files, configPath) && !ParentsBlocked(files, workRoot + ["backup", "0000"]) &&
    forall i | 0 <= i < |requests| :: !ParentsBlocked(files, requests[i].destination)
  }

  ghost function PlanFor(files: FileSystem, configPath: Path, root: Path, scopeId: string, id: nat,
                         requests: seq<PublishEntry>): Plan
    requires |root| > 1
  {
    var workRoot := WorkRoot(root, scopeId, id);
    var entries := seq(|requests|, i requires 0 <= i < |requests| =>
                         Normalized(files, workRoot, requests[i], i));
    Plan(files, Journal(SCHEMA_VERSION, id, root, workRoot, Prepared, entries, false,
                        ConfigSnapshot(false, [])), JournalPath(root, scopeId), configPath)
  }

  /** The journal and its temporaries lie beside the work directory. */
  lemma JournalBesideWorkRoot(root: Path, scopeId: string, id: nat)
    requires |root| > 1
    ensures var j, w := JournalPath(root, scopeId), WorkRoot(root, scopeId, id);
      !Overlap(j, w) && !IsTemporaryOf(j, w)
  {
    var scope := ".mkwc-transaction-" + scopeId;
    var j, w := JournalPath(root, scopeId), WorkRoot(root, scopeId, id);
    assert j[|j| - 1] == scope + ".json" && w[|w| - 1] == scope + "-" + Digits(id);
    assert j[|j| - 1][|scope|] == '.' && w[|w| - 1][|scope|] == '-';
    assert (j[|j| - 1] + ".tmp-")[|scope|] == '.';
  }

  /** Nothing lies at or below a backup but what was put there. */
  lemma BackupUndisturbed(target: Path, w: Path, index: nat)
    requires !Overlap(target, w)
    ensures ClearOfTemporaries(target, BackupPath(w, index))
  {
    DisjointFromBelow(target, w, ["backup", D4(index)]);
    var b := BackupPath(w, index);
    var parent := b[..|b| - 1];
    assert w <= parent;
    assert IsTemporaryOf(target, b) ==> parent <= target;
    ApartFromTemporaries(target, b);
  }

  lemma DisjointFromBelow(a: Path, w: Path, below: Path)
    requires !Overlap(a, w)
    ensures !Overlap(a, w + below)
  {
    DisjointBelow(w, a, below);
    if |w| <= |a| { assert w + below <= a ==> w <= a; }
  }

  /** The work directory lies beside the installation, apart from every destination and prepared path. */
  lemma WorkRootApart(files: FileSystem, root: Path, w: Path, e: PublishEntry)
    requires |root| > 1 && |w| == |root| && w[..|w| - 1] == Parent(root) && w != root
    requires EntryAcceptable(files, root, e) && Subtree(files, w) == NOTHING
    requires !Overlap(e.prepared, e.destination)
    ensures !Overlap(e.destination, w) && !Overlap(e.prepared, w)
  {
    assert e.destination[..|w|] == root;
    if w <= e.prepared { NothingMeansAbsent(files, w, e.prepared); }
    if |e.prepared| < |w| {
      assert w[..|e.prepared|] == Parent(root)[..|e.prepared|] == root[..|e.prepared|];
      assert root[..|e.prepared|] == e.destination[..|e.prepared|];
    }
  }

  lemma BackupStartsEmpty(files: FileSystem, w: Path, index: nat)
    requires Subtree(files, w) == NOTHING
    ensures Subtree(files, BackupPath(w, index)) == NOTHING
  {
    forall below: Path ensures BackupPath(w, index) + below !in files {
      assert BackupPath(w, index) + below == w + (["backup", D4(index)] + below);
      assert ["backup", D4(index)] + below !in Subtree(files, w);
    }
  }

  lemma BackupsApart(w: Path, i: nat, j: nat)
    requires i != j
    ensures !Overlap(BackupPath(w, i), BackupPath(w, j))
  {
    assert BackupPath(w, i)[|w| + 1] == D4(i) && BackupPath(w, j)[|w| + 1] == D4(j);
    if D4(i) == D4(j) { D4IsInjective(i, j); }
  }

  lemma RequestUndisturbed(target: Path, requests: seq<PublishEntry>, i: nat)
    requires FileOfItsOwn(target, requests) && i < |requests|
    ensures ClearOfTemporaries(target, requests[i].prepared) && ClearOfTemporaries(target, requests[i].destination)
  {
    ApartFromTemporaries(target, requests[i].prepared);
    ApartFromTemporaries(target, requests[i].destination);
  }

  lemma SoundByAcceptance(files: FileSystem, configPath: Path, root: Path, scopeId: string, id: nat,
                          requests: seq<PublishEntry>, i: nat)
    requires |root| > 1 && Beginnable(files, configPath, root, scopeId, id, requests)
    requires Acceptable(files, root, requests) && i < |requests|
    ensures var p := PlanFor(files, configPath, root, scopeId, id, requests);
      Sound(Was(p, i), p.Entries()[i])
  {
    var p := PlanFor(files, configPath, root, scopeId, id, requests);
    var e := p.Entries()[i];
    assert EntryAcceptable(files, root, requests[i]);
    RootOfSubtree(files, e.prepared);
    RootOfSubtree(files, e.destination);
    BackupStartsEmpty(files, p.journal.workRoot, i);
    if !e.originalExisted { NothingBelowAMissingNode(files, e.destination); }
  }

  lemma UndisturbedByAcceptance(files: FileSystem, configPath: Path, root: Path, scopeId: string, id: nat,
                                requests: seq<PublishEntry>, i: nat)
    requires |root| > 1 && Beginnable(files, configPath, root, scopeId, id, requests) && i < |requests|
    ensures var p := PlanFor(files, configPath, root, scopeId, id, requests);
      Undisturbed(p, p.Entries()[i].destination) && Undisturbed(p, p.Entries()[i].backup) &&
      Undisturbed(p, p.Entries()[i].prepared)
  {
    var p := PlanFor(files, configPath, root, scopeId, id, requests);
    JournalBesideWorkRoot(root, scopeId, id);
    BackupUndisturbed(configPath, p.journal.workRoot, i);
    BackupUndisturbed(p.journalPath, p.journal.workRoot, i);
    RequestUndisturbed(configPath, requests, i);
    RequestUndisturbed(p.journalPath, requests, i);
  }

  lemma PlacedByAcceptance(files: FileSystem, configPath: Path, root: Path, scopeId: string, id: nat,
                           requests: seq<PublishEntry>, i: nat)
    requires |root| > 1 && Beginnable(files, configPath, root, scopeId, id, requests)
    requires Acceptable(files, root, requests) && i < |requests|
    ensures var p := PlanFor(files, configPath, root, scopeId, id, requests);
      Placed(p, p.Entries()[i])
  {
    var p := PlanFor(files, configPath, root, scopeId, id, requests);
    var e, w, n := p.Entries()[i], p.journal.workRoot, |requests|;
    assert EntryAcceptable(files, root, requests[i]);
    assert AllPaths(requests)[i] == e.prepared && AllPaths(requests)[n + i] == e.destination;
    assert w[..|w| - 1] == Parent(root);
    WorkRootApart(files, root, w, requests[i]);
    DisjointFromBelow(e.destination, w, ["backup", D4(i)]);
    DisjointFromBelow(e.prepared, w, ["backup", D4(i)]);
    DisjointFromBelow(configPath, w, ["backup", D4(i)]);
    UndisturbedByAcceptance(files, configPath, root, scopeId, id, requests, i);
  }

  lemma ApartByAcceptance(files: FileSystem, configPath: Path, root: Path, scopeId: string, id: nat,
                          requests: seq<PublishEntry>, i: nat, j: nat)
    requires |root| > 1 && Beginnable(files, configPath, root, scopeId, id, requests)
    requires Acceptable(files, root, requests) && i < |requests| && j < |requests| && i != j
    ensures var p := PlanFor(files, configPath, root, scopeId, id, requests);
      Apart(p.Entries()[i], p.Entries()[j])
  {
    var p := PlanFor(files, configPath, root, scopeId, id, requests);
    PlacedByAcceptance(files, configPath, root, scopeId, id, requests, i);
    PlacedByAcceptance(files, configPath, root, scopeId, id, requests, j);
    RequestsApart(requests, i, j);
    EntriesApart(p.Entries()[i], p.Entries()[j], p.journal.workRoot, i, j);
  }

  lemma RequestsApart(requests: seq<PublishEntry>, i: nat, j: nat)
    requires PairwiseDisjoint(AllPaths(requests)) && i < |requests| && j < |requests| && i != j
    ensures !Overlap(requests[i].prepared, requests[j].prepared)
    ensures !Overlap(requests[i].prepared, requests[j].destination)
    ensures !Overlap(requests[i].destination, requests[j].prepared)
    ensures !Overlap(requests[i].destination, requests[j].destination)
  {
    var n, paths := |requests|, AllPaths(requests);
    assert paths[i] == requests[i].prepared && paths[n + i] == requests[i].destination;
    assert paths[j] == requests[j].prepared && paths[n + j] == requests[j].destination;
  }

  lemma EntriesApart(a: JournalEntry, b: JournalEntry, w: Path, i: nat, j: nat)
    requires i != j && a.backup == BackupPath(w, i) && b.backup == BackupPath(w, j)
    requires !Overlap(a.destination, w) && !Overlap(a.prepared, w)
    requires !Overlap(b.destination, w) && !Overlap(b.prepared, w)
    requires !Overlap(a.destination, b.destination) && !Overlap(a.destination, b.prepared)
    requires !Overlap(a.prepared, b.destination) && !Overlap(a.prepared, b.prepared)
    ensures Apart(a, b)
  {
    DisjointFromBelow(a.destination, w, ["backup", D4(j)]);
    DisjointFromBelow(a.prepared, w, ["backup", D4(j)]);
    DisjointFromBelow(b.destination, w, ["backup", D4(i)]);
    DisjointFromBelow(b.prepared, w, ["backup", D4(i)]);
    BackupsApart(w, i, j);
  }

  /** Accepted entries make a plan whose paths keep out of each other's way. */
  lemma PlanIsSensible(files: FileSystem, configPath: Path, root: Path, scopeId: string, id: nat,
                       requests: seq<PublishEntry>)
    requires |root| > 1 && Beginnable(files, configPath, root, scopeId, id, requests)
    requires Acceptable(files, root, requests)
    ensures Sensible(PlanFor(files, configPath, root, scopeId, id, requests))
  {
    var p := PlanFor(files, configPath, root, scopeId, id, requests);
    JournalBesideWorkRoot(root, scopeId, id);
    forall i | 0 <= i < |requests| ensures Placed(p, p.Entries()[i]) && Sound(Was(p, i), p.Entries()[i]) {
      PlacedByAcceptance(files, configPath, root, scopeId, id, requests, i);
      SoundByAcceptance(files, configPath, root, scopeId, id, requests, i);
    }
    forall i, j | 0 <= i < |requests| && 0 <= j < |requests| && i != j
      ensures Apart(p.Entries()[i], p.Entries()[j])
    {
      ApartByAcceptance(files, configPath, root, scopeId, id, requests, i, j);
    }
  }

  /** The disk and the journal a transaction opens with. */
  ghost predicate Opens(p: Plan, first: Journal, files: FileSystem, configPath: Path) {
    p.begun == files && p.journal == first && p.configPath == configPath && Subtree(files, first.workRoot) == NOTHING
  }

  /** A journal some transaction of this installation wrote. */
  ghost predicate OwnPlan(p: Plan, root: Path, scopeId: string)
    requires |root| > 1
  {
    Sensible(p) && p.Entries() != [] && HeaderValid(root, scopeId, p.journal) &&
    p.journalPath == JournalPath(root, scopeId) &&
    (forall i | 0 <= i < |p.Entries()| :: Contains(root, p.Entries()[i].destination)) &&
    BackupsExpected(p.journal, p.journal.workRoot)
  }

  /** Accepted entries make a plan of this installation. */
  lemma PlanIsOwn(files: FileSystem, configPath: Path, root: Path, scopeId: string, id: nat,
                  requests: seq<PublishEntry>)
    requires |root| > 1 && Beginnable(files, configPath, root, scopeId, id, requests)
    requires requests != [] && Acceptable(files, root, requests)
    ensures OwnPlan(PlanFor(files, configPath, root, scopeId, id, requests), root, scopeId)
  {
    PlanIsSensible(files, configPath, root, scopeId, id, requests);
    forall i | 0 <= i < |requests| ensures Contains(root, requests[i].destination) {
      assert EntryAcceptable(files, root, requests[i]);
    }
  }

  ghost predicate Safe(p: Plan, m: Machine)
    reads m
  {
    CrashSafe(p, m.files, m.journal, m.committed)
  }

  /** No work directory outlives its journal. */
  ghost predicate Tidy(p: Plan, m: Machine)
    reads m
  {
    m.journal == None ==> Subtree(m.files, p.journal.workRoot) == NOTHING
  }

  /** Puts one entry back. Neither "the backup is missing" nor "recovery is ambiguous" can come up. */
  method RollBackEntry(m: Machine, e: JournalEntry, ghost was: View) returns (s: Status)
    requires WellFormed(m.files) && Recoverable(ViewOf(m.files, e), was, e) && Sound(was, e)
    requires !Overlap(e.destination, e.backup) && !Overlap(e.destination, e.prepared)
    requires !Overlap(e.backup, e.prepared) && e.destination != [] && e.backup != []
    requires e.originalExisted ==> OpenWay(m.files, e.destination)
    modifies m`files, m`faults
    ensures WellFormed(m.files) && Confined(old(m.files), m.files, e)
    ensures Recoverable(ViewOf(m.files, e), was, e)
    ensures s.Done? ==> Restored(ViewOf(m.files, e), was)
    ensures Restored(ViewOf(old(m.files), e), was) ==> Restored(ViewOf(m.files, e), was)
    ensures Faultless(old(m.faults)) ==> Faultless(m.faults) && s.Done?
    ensures s.Threw? ==> s.reason in {DeviceFailed, SystemRefused}
  {
    RootOfSubtree(m.files, e.destination);
    RootOfSubtree(m.files, e.backup);
    RootOfSubtree(m.files, e.prepared);
    var destinationExists := Exists(m.files, e.destination, e.kind);
    if Exists(m.files, e.backup, e.kind) {
      s := MoveBack(m, e, destinationExists);
    } else if e.originalExisted {
      s := if destinationExists then Done else Threw(BackupMissing);
    } else if destinationExists && Exists(m.files, e.prepared, e.kind) {
      s := Threw(RecoveryAmbiguous);
    } else if destinationExists {
      s := ClearDestination(m, e);
    } else {
      s := Done;
    }
  }

  /** Makes room for the backup and moves it where it came from. */
  method MoveBack(m: Machine, e: JournalEntry, destinationExists: bool) returns (s: Status)
    requires WellFormed(m.files) && Exists(m.files, e.backup, e.kind) && OpenWay(m.files, e.destination)
    requires destinationExists <==> Exists(m.files, e.destination, e.kind)
    requires !destinationExists ==> Subtree(m.files, e.destination) == NOTHING
    requires !Overlap(e.destination, e.backup) && !Overlap(e.destination, e.prepared)
    requires !Overlap(e.backup, e.prepared) && e.destination != [] && e.backup != []
    modifies m`files, m`faults
    ensures WellFormed(m.files) && Confined(old(m.files), m.files, e)
    ensures Subtree(m.files, e.prepared) == Subtree(old(m.files), e.prepared)
    ensures if s.Done? then
              Subtree(m.files, e.destination) == Subtree(old(m.files), e.backup) &&
              Subtree(m.files, e.backup) == NOTHING
            else
              Subtree(m.files, e.backup) == Subtree(old(m.files), e.backup) &&
              (Subtree(m.files, e.destination) == NOTHING || IsKind(Subtree(m.files, e.destination), e.kind))
    ensures Faultless(old(m.faults)) ==> Faultless(m.faults) && s.Done?
    ensures s.Threw? ==> s.reason in {DeviceFailed, SystemRefused}
  {
    ghost var start := m.files;
    RootOfSubtree(start, e.destination);
    if destinationExists {
      s := ClearDestination(m, e);
      if !s.Done? { return; }
    }
    ghost var cleared := m.files;
    RootOfSubtree(start, e.backup);
    RootOfSubtree(cleared, e.backup);
    RootOfSubtree(cleared, e.destination);
    s := m.Move(e.backup, e.destination, e.kind);
    LocalKeepsSubtree(cleared, m.files, e.backup, e.destination, e.prepared);
    LocalIsConfined(cleared, m.files, e, e.backup, e.destination);
    ConfinedSteps(start, cleared, m.files, e);
  }

  method ClearDestination(m: Machine, e: JournalEntry) returns (s: Status)
    requires WellFormed(m.files) && e.destination != [] && Exists(m.files, e.destination, e.kind)
    requires !Overlap(e.destination, e.backup) && !Overlap(e.destination, e.prepared)
    modifies m`files, m`faults
    ensures WellFormed(m.files) && Confined(old(m.files), m.files, e)
    ensures OpenWay(old(m.files), e.destination) ==> OpenWay(m.files, e.destination)
    ensures Subtree(m.files, e.backup) == Subtree(old(m.files), e.backup)
    ensures Subtree(m.files, e.prepared) == Subtree(old(m.files), e.prepared)
    ensures if s.Done? then Subtree(m.files, e.destination) == NOTHING
            else IsKind(Subtree(m.files, e.destination), e.kind)
    ensures Faultless(old(m.faults)) ==> Faultless(m.faults) && s.Done?
    ensures s.Threw? ==> s.reason == DeviceFailed
  {
    ghost var start := m.files;
    s := DeleteAs(m, e.destination, e.kind);
    LocalIsConfined(start, m.files, e, e.destination, e.destination);
    RootOfSubtree(m.files, e.destination);
    LocalKeepsSubtree(start, m.files, e.destination, e.destination, e.backup);
    LocalKeepsSubtree(start, m.files, e.destination, e.destination, e.prepared);
  }

  method DeleteAs(m: Machine, path: Path, kind: Kind) returns (s: Status)
    requires WellFormed(m.files) && path != [] && Exists(m.files, path, kind)
    modifies m`files, m`faults
    ensures WellFormed(m.files) && Local(old(m.files), m.files, path, path)
    ensures s.Done? ==> Subtree(m.files, path) == NOTHING
    ensures !s.Done? ==> Exists(m.files, path, kind)
    ensures Faultless(old(m.faults)) ==> Faultless(m.faults) && s.Done?
    ensures s.Threw? ==> s.reason == DeviceFailed
  {
    if kind == Directory {
      s := m.DeleteDirectory(path);
    } else {
      s := m.DeleteFile(path);
    }
  }

  /** Moving something aside leaves the way to where it was open. */
  lemma LocalKeepsWay(fs: FileSystem, after: FileSystem, a: Path, b: Path)
    requires Local(fs, after, a, b) && !Overlap(a, b) && !ParentsBlocked(fs, a)
    ensures !ParentsBlocked(after, a)
  {
    forall n | 1 <= n < |a| && a[..n] in after ensures after[a[..n]].Dir? {
      assert !(a <= a[..n]) && (b <= a[..n] ==> b <= a);
    }
  }

  /** Moves one original aside and the prepared contents into its place. */
  method PublishEntryAt(m: Machine, e: JournalEntry, ghost was: View) returns (s: Status)
    requires WellFormed(m.files) && Recoverable(ViewOf(m.files, e), was, e) && Sound(was, e)
    requires !Overlap(e.destination, e.backup) && !Overlap(e.destination, e.prepared)
    requires !Overlap(e.backup, e.prepared) && e.destination != [] && e.backup != [] && e.prepared != []
    modifies m`files, m`faults
    ensures WellFormed(m.files) && Confined(old(m.files), m.files, e)
    ensures Recoverable(ViewOf(m.files, e), was, e)
    ensures s.Done? ==> Replaced(ViewOf(m.files, e), was)
    ensures Faultless(old(m.faults)) ==> Faultless(m.faults)
    ensures Faultless(old(m.faults)) && ReadyToPublish(old(m.files), e, was) ==> s.Done?
    ensures s.Threw? ==> s.reason in {DeviceFailed, SystemRefused}
  {
    ghost var start := m.files;
    RootOfSubtree(start, e.destination);
    RootOfSubtree(start, e.backup);
    RootOfSubtree(start, e.prepared);
    if e.originalExisted {
      s := m.Move(e.destination, e.backup, e.kind);
      LocalIsConfined(start, m.files, e, e.destination, e.backup);
      LocalKeepsSubtree(start, m.files, e.destination, e.backup, e.prepared);
      if !s.Done? { return; }
    }
    ghost var aside := m.files;
    RootOfSubtree(aside, e.prepared);
    RootOfSubtree(aside, e.destination);
    if e.originalExisted && !ParentsBlocked(start, e.destination) {
      LocalKeepsWay(start, aside, e.destination, e.backup);
    }
    s := m.Move(e.prepared, e.destination, e.kind);
    LocalIsConfined(aside, m.files, e, e.prepared, e.destination);
    LocalKeepsSubtree(aside, m.files, e.prepared, e.destination, e.backup);
    ConfinedSteps(start, aside, m.files, e);
  }

  /** A step confined to one entry that leaves this entry recoverable leaves the disk crash-safe. */
  lemma StepStaysSafe(p: Plan, fs: FileSystem, after: FileSystem, journal: Option<Journal>, committed: bool,
                      i: nat)
    requires Sensible(p) && i < |p.Entries()|
    requires CrashSafe(p, fs, journal, committed) && WellFormed(after) && Confined(fs, after, p.Entries()[i])
    requires journal.Some? && journal.value.state in {Prepared, Published}
    requires Recoverable(ViewOf(after, p.Entries()[i]), Was(p, i), p.Entries()[i])
    ensures CrashSafe(p, after, journal, committed)
    ensures forall j | 0 <= j < |p.Entries()| && j != i ::
      ViewOf(after, p.Entries()[j]) == ViewOf(fs, p.Entries()[j])
    ensures ConfigAt(after, p.configPath) == ConfigAt(fs, p.configPath)
  {
    OtherViewsKept(p, fs, after, i);
    RestStaysKept(p, fs, after, i);
  }

  /** The transaction is between its first journal and its last. */
  ghost predicate UnderWay(p: Plan, m: Machine)
    reads m
  {
    Sensible(p) && Safe(p, m) && m.journal.Some? && m.journal.value.state in {Prepared, Published}
  }

  lemma EntryInPlay(p: Plan, m: Machine, i: nat)
    requires UnderWay(p, m) && i < |p.Entries()|
    ensures WellFormed(m.files) && RestKept(p, m.files)
    ensures Recoverable(ViewOf(m.files, p.Entries()[i]), Was(p, i), p.Entries()[i])
    ensures Sound(Was(p, i), p.Entries()[i]) && Placed(p, p.Entries()[i])
    ensures p.Entries()[i].originalExisted ==> OpenWay(m.files, p.Entries()[i].destination)
  {
    if p.Entries()[i].originalExisted { WayToOriginalIsOpen(p, m.files, i); }
  }

  /** Publishes one entry of a transaction. */
  method PublishOne(m: Machine, ghost p: Plan, i: nat, e: JournalEntry) returns (s: Status)
    requires UnderWay(p, m) && i < |p.Entries()| && e == p.Entries()[i]
    modifies m`files, m`faults
    ensures Safe(p, m)
    ensures s.Done? ==> Replaced(ViewOf(m.files, e), Was(p, i))
    ensures forall j | 0 <= j < |p.Entries()| && j != i ::
      ViewOf(m.files, p.Entries()[j]) == ViewOf(old(m.files), p.Entries()[j])
    ensures ConfigAt(m.files, p.configPath) == ConfigAt(old(m.files), p.configPath)
    ensures old(WaysOpen(p, m.files)) ==> WaysOpen(p, m.files)
    ensures Faultless(old(m.faults)) ==> Faultless(m.faults)
    ensures Faultless(old(m.faults)) && old(ReadyToPublish(m.files, e, Was(p, i))) ==> s.Done?
    ensures s.Threw? ==> s.reason in {DeviceFailed, SystemRefused}
  {
    ghost var start := m.files;
    EntryInPlay(p, m, i);
    s := PublishEntryAt(m, e, Was(p, i));
    if WaysOpen(p, start) { ConfinedKeepsWays(p, start, m.files, i); }
    StepStaysSafe(p, start, m.files, m.journal, m.committed, i);
  }

  /** The entries from this one on are as they were. */
  ghost predicate UntouchedFrom(p: Plan, fs: FileSystem, i: nat) {
    forall j | i <= j < |p.Entries()| :: Untouched(ViewOf(fs, p.Entries()[j]), Was(p, j))
  }

  /** Publishes every entry, in order. */
  method PublishEntries(m: Machine, ghost p: Plan, entries: seq<JournalEntry>) returns (s: Status)
    requires UnderWay(p, m) && entries == p.Entries()
    modifies m`files, m`faults
    ensures Safe(p, m)
    ensures s.Done? ==> AllReplaced(p, m.files)
    ensures ConfigAt(m.files, p.configPath) == ConfigAt(old(m.files), p.configPath)
    ensures old(WaysOpen(p, m.files)) ==> WaysOpen(p, m.files)
    ensures Faultless(old(m.faults)) ==> Faultless(m.faults)
    ensures Faultless(old(m.faults)) && old(AllReady(p, m.files)) ==> s.Done?
    ensures s.Threw? ==> s.reason in {DeviceFailed, SystemRefused}
  {
    for i := 0 to |entries|
      invariant Safe(p, m)
      invariant forall j | 0 <= j < i :: Replaced(ViewOf(m.files, p.Entries()[j]), Was(p, j))
      invariant ConfigAt(m.files, p.configPath) == ConfigAt(old(m.files), p.configPath)
      invariant old(WaysOpen(p, m.files)) ==> WaysOpen(p, m.files)
      invariant Faultless(old(m.faults)) ==> Faultless(m.faults)
      invariant old(AllUntouched(p, m.files)) ==> UntouchedFrom(p, m.files, i)
    {
      s := PublishOne(m, p, i, entries[i]);
      if !s.Done? { return; }
    }
    s := Done;
  }

  /** Rolls one entry of a transaction back. */
  method RollBackOne(m: Machine, ghost p: Plan, i: nat, e: JournalEntry) returns (s: Status)
    requires UnderWay(p, m) && i < |p.Entries()| && e == p.Entries()[i]
    modifies m`files, m`faults
    ensures Safe(p, m)
    ensures s.Done? ==> Restored(ViewOf(m.files, e), Was(p, i))
    ensures StillRestored(p, old(m.files), m.files)
    ensures forall j | 0 <= j < |p.Entries()| && j != i ::
      ViewOf(m.files, p.Entries()[j]) == ViewOf(old(m.files), p.Entries()[j])
    ensures ConfigAt(m.files, p.configPath) == ConfigAt(old(m.files), p.configPath)
    ensures Faultless(old(m.faults)) ==> Faultless(m.faults) && s.Done?
    ensures s.Threw? ==> s.reason in {DeviceFailed, SystemRefused}
  {
    ghost var start := m.files;
    EntryInPlay(p, m, i);
    s := RollBackEntry(m, e, Was(p, i));
    StepStaysSafe(p, start, m.files, m.journal, m.committed, i);
  }

  /** Rolls every entry back, last first. */
  method RollBackEntries(m: Machine, ghost p: Plan, entries: seq<JournalEntry>) returns (s: Status)
    requires UnderWay(p, m) && entries == p.Entries()
    modifies m`files, m`faults
    ensures Safe(p, m)
    ensures s.Done? ==> AllRestored(p, m.files)
    ensures StillRestored(p, old(m.files), m.files)
    ensures ConfigAt(m.files, p.configPath) == ConfigAt(old(m.files), p.configPath)
    ensures Faultless(old(m.faults)) ==> Faultless(m.faults) && s.Done?
    ensures s.Threw? ==> s.reason in {DeviceFailed, SystemRefused}
  {
    for i := |entries| downto 0
      invariant Safe(p, m)
      invariant forall j | i <= j < |p.Entries()| :: Restored(ViewOf(m.files, p.Entries()[j]), Was(p, j))
      invariant StillRestored(p, old(m.files), m.files)
      invariant ConfigAt(m.files, p.configPath) == ConfigAt(old(m.files), p.configPath)
      invariant Faultless(old(m.faults)) ==> Faultless(m.faults)
    {
      s := RollBackOne(m, p, i, entries[i]);
      if !s.Done? { return; }
    }
    s := Done;
  }

  method PutConfigBack(m: Machine, ghost p: Plan, config: ConfigSnapshot) returns (s: Status)
    requires UnderWay(p, m) && m.configPath == p.configPath && config == Capture(p.begun, p.configPath)
    requires AllRestored(p, m.files) && (m.journal.value.configMutationPlanned || ConfigKept(p, m.files))
    modifies m`files, m`faults
    ensures Safe(p, m) && AllRestored(p, m.files)
    ensures s.Done? ==> ConfigKept(p, m.files)
    ensures Faultless(old(m.faults)) ==> Faultless(m.faults) && s.Done?
    ensures s.Threw? ==> s.reason in {DeviceFailed, SystemRefused}
  {
    ghost var start := m.files;
    if config.existed {
      WayToConfigIsOpen(p, start);
      s := m.WriteFile(m.configPath, config.contents);
    } else {
      s := m.DeleteFile(m.configPath);
      RootOfSubtree(m.files, m.configPath);
    }
    ConfigStepKeepsRest(p, start, m.files);
  }

  /** A step inside the work directory: harmless once the originals are back, or replaced for good. */
  lemma CleaningStaysSafe(p: Plan, fs: FileSystem, after: FileSystem, journal: Option<Journal>,
                          next: Option<Journal>, committed: bool)
    requires Sensible(p) && CrashSafe(p, fs, journal, committed) && WellFormed(after)
    requires Local(fs, after, p.journal.workRoot, p.journal.workRoot)
    requires p.journal.workRoot in after ==> after[p.journal.workRoot].Dir?
    requires journal.Some? && journal.value.state in {Committed, RolledBack}
    requires next == journal || next == None
    ensures CrashSafe(p, after, next, committed)
  {
    WorkRootStepKeepsRest(p, fs, after);
  }

  /** Deletes the work directory and then the journal; neither failure is an error here. */
  method TryCleanCommitted(m: Machine, ghost p: Plan, j: Journal) returns (s: Status)
    requires Sensible(p) && Safe(p, m) && j.workRoot == p.journal.workRoot
    requires m.journal.Some? && m.journal.value.state in {Committed, RolledBack}
    modifies m`files, m`journal, m`faults
    ensures Safe(p, m) && !s.Threw?
    ensures m.journal == old(m.journal) || m.journal == None
    ensures ConfigAt(m.files, p.configPath) == ConfigAt(old(m.files), p.configPath)
    ensures Tidy(p, m)
    ensures Faultless(old(m.faults)) ==> Faultless(m.faults) && s.Done? && m.journal == None
  {
    ghost var start := m.files;
    s := m.DeleteDirectory(j.workRoot);
    if s.Done? {
      RootOfSubtree(m.files, j.workRoot);
    }
    CleaningStaysSafe(p, start, m.files, m.journal, m.journal, m.committed);
    CleaningStaysSafe(p, start, m.files, m.journal, None, m.committed);
    WorkRootStepKeepsRest(p, start, m.files);
    if s.Done? {
      s := m.DeleteJournal();
    }
    if s.Threw? { s := Done; }
  }

  /** Creating the work directory leaves the installation as it was. */
  lemma WorkDirectoryKeepsOriginal(p: Plan, inside: Path, after: FileSystem)
    requires SomeParents(p.begun, after, inside)
    requires Sensible(p) && BackupsExpected(p.journal, p.journal.workRoot)
    requires inside == p.journal.workRoot + ["backup", "0000"]
    requires Subtree(p.begun, p.journal.workRoot) == NOTHING
    ensures RestKept(p, after) && AllUntouched(p, after) && ConfigKept(p, after)
    ensures p.journal.workRoot in after ==> after[p.journal.workRoot].Dir?
    ensures p.journal.workRoot !in p.begun
  {
    var w := p.journal.workRoot;
    ParentsOnlyAbove(p.begun, after, inside);
    RootOfSubtree(p.begun, w);
    forall i | 0 <= i < |p.Entries()| ensures ViewOf(after, p.Entries()[i]) == Was(p, i) {
      var e := p.Entries()[i];
      assert Placed(p, e);
      DisjointFromBelow(e.destination, w, ["backup", "0000"]);
      DisjointFromBelow(e.prepared, w, ["backup", "0000"]);
      LocalKeepsSubtree(p.begun, after, inside, inside, e.destination);
      LocalKeepsSubtree(p.begun, after, inside, inside, e.prepared);
      assert e.backup == BackupPath(w, i);
      forall below: Path ensures e.backup + below in after <==> e.backup + below in p.begun {
        assert forall n | 1 <= n < |inside| :: |inside[..n]| < |e.backup + below|;
      }
    }
    DisjointFromBelow(p.configPath, w, ["backup", "0000"]);
    forall path: Path | Foreign(p, path) && path in after && path !in p.begun ensures path < w {
      assert path in Ancestors(inside);
      PrefixesCompare(path, w, inside);
    }
  }

  /** Before the first journal is on disk, and after, a power loss costs nothing. */
  lemma OpeningIsSafe(p: Plan, after: FileSystem)
    requires Sensible(p) && BackupsExpected(p.journal, p.journal.workRoot) && WellFormed(after)
    requires Subtree(p.begun, p.journal.workRoot) == NOTHING
    requires p.journal.state == Prepared && !p.journal.configMutationPlanned
    requires SomeParents(p.begun, after, p.journal.workRoot + ["backup", "0000"])
    ensures AllUntouched(p, after) && CrashSafe(p, after, None, false) && CrashSafe(p, after, Some(p.journal), false)
  {
    WorkDirectoryKeepsOriginal(p, p.journal.workRoot + ["backup", "0000"], after);
    forall i | 0 <= i < |p.Entries()|
      ensures ViewOf(after, p.Entries()[i]) == Was(p, i)
      ensures Recoverable(ViewOf(after, p.Entries()[i]), Was(p, i), p.Entries()[i])
    {
      assert Sound(Was(p, i), p.Entries()[i]);
    }
  }

  /** The ways a transaction needs are open, before its work directory is there. */
  ghost predicate WaysClear(p: Plan) {
    !ParentsBlocked(p.begun, p.configPath) && !ParentsBlocked(p.begun, p.journal.workRoot + ["backup", "0000"]) &&
    forall i | 0 <= i < |p.Entries()| :: !ParentsBlocked(p.begun, p.Entries()[i].destination)
  }

  lemma NewDirectoriesBlockNothing(fs: FileSystem, after: FileSystem, path: Path, inside: Path)
    requires SomeParents(fs, after, inside) && !ParentsBlocked(fs, path)
    ensures !ParentsBlocked(after, path)
  {
  }

  /** All backups are beside the first. */
  lemma BackupWay(fs: FileSystem, w: Path, i: nat)
    requires !ParentsBlocked(fs, w + ["backup", "0000"])
    ensures !ParentsBlocked(fs, BackupPath(w, i))
  {
    var inside, b := w + ["backup", "0000"], BackupPath(w, i);
    forall n | 1 <= n < |b| ensures b[..n] == inside[..n] { }
  }

  lemma OpeningKeepsWays(p: Plan, after: FileSystem)
    requires WaysClear(p) && BackupsExpected(p.journal, p.journal.workRoot)
    requires SomeParents(p.begun, after, p.journal.workRoot + ["backup", "0000"])
    ensures WaysOpen(p, after)
  {
    var inside := p.journal.workRoot + ["backup", "0000"];
    NewDirectoriesBlockNothing(p.begun, after, p.configPath, inside);
    forall i | 0 <= i < |p.Entries()|
      ensures !ParentsBlocked(after, p.Entries()[i].destination) && !ParentsBlocked(after, p.Entries()[i].backup)
    {
      NewDirectoriesBlockNothing(p.begun, after, p.Entries()[i].destination, inside);
      BackupWay(p.begun, p.journal.workRoot, i);
      NewDirectoriesBlockNothing(p.begun, after, p.Entries()[i].backup, inside);
    }
  }

  class InstallTransaction {
    const machine: Machine
    const root: Path
    var journal: Journal
    var finished: bool
    ghost const plan: Plan

    constructor (machine: Machine, root: Path, journal: Journal, ghost plan: Plan)
      ensures this.machine == machine && this.root == root && this.journal == journal
      ensures !finished && this.plan == plan
    {
      this.machine, this.root, this.journal, this.plan := machine, root, journal, plan;
      finished := false;
    }

    /** The transaction can still be rolled back, or is over; and the power may go at any time. */
    ghost predicate Valid()
      reads this, machine
    {
      |root| > 1 && OwnPlan(plan, root, machine.scopeId) && machine.configPath == plan.configPath &&
      Safe(plan, machine) && SameTransaction(journal, plan.journal) && PreimageSafe(plan, journal) &&
      (!finished ==>
         machine.journal.Some? && machine.journal.value.state in {Prepared, Published} &&
         (machine.journal.value.configMutationPlanned ==> journal.configMutationPlanned)) &&
      (finished ==> machine.journal.None? || machine.journal.value.state in {Committed, RolledBack})
    }

    /** The work directory, and in it the first journal. */
    static method OpenJournal(machine: Machine, root: Path, first: Journal, ghost plan: Plan) returns (s: Status)
      requires |root| > 1 && first.installRoot == root && first.state == Prepared && !first.configMutationPlanned
      requires WellFormed(machine.files) && machine.journal == None && !machine.committed
      modifies machine
      ensures WellFormed(machine.files) && !machine.committed
      ensures machine.journal == if s.Done? then Some(first) else None
      ensures Opens(plan, first, old(machine.files), machine.configPath) && OwnPlan(plan, root, machine.scopeId) ==>
                Safe(plan, machine) && (s.Done? ==> AllUntouched(plan, machine.files)) &&
                (s.Done? && WaysClear(plan) ==> WaysOpen(plan, machine.files))
      ensures Faultless(old(machine.faults)) ==> Faultless(machine.faults)
      ensures Faultless(old(machine.faults)) ==>
                s.Done? || ParentsBlocked(old(machine.files), first.workRoot + ["backup", "0000"])
    {
      var inside := first.workRoot + ["backup", "0000"];
      ghost var own := Opens(plan, first, machine.files, machine.configPath) && OwnPlan(plan, root, machine.scopeId);
      s := machine.CreateParents(inside);
      ghost var made := machine.files;
      if own { OpeningIsSafe(plan, made); }
      if own && WaysClear(plan) { OpeningKeepsWays(plan, made); }
      if !s.Done? { return; }
      s := machine.WriteJournal(first);
      if own { JournalStepStaysSafe(plan, made, machine.files, None, false); }
    }

    static method Begin(machine: Machine, root: Path, id: nat, requests: seq<PublishEntry>)
      returns (s: Status, t: InstallTransaction?, ghost plan: Plan)
      requires |root| > 1 && WellFormed(machine.files)
      modifies machine
      ensures plan == PlanFor(old(machine.files), machine.configPath, root, machine.scopeId, id, requests)
      ensures s.Done? <==> t != null
      ensures requests == [] || old(machine.journal).Some? || !Acceptable(old(machine.files), root, requests) ==>
        s.Threw? && machine.files == old(machine.files) && machine.journal == old(machine.journal)
      ensures old(machine.journal) == None ==>
        machine.journal == if s.Done? then Some(plan.journal) else None
      ensures t != null ==> fresh(t) && t.plan == plan && t.machine == machine && t.root == root
      ensures t != null ==> !t.finished && t.journal == plan.journal
      ensures requests != [] && old(machine.journal) == None && Acceptable(old(machine.files), root, requests) ==>
        !machine.committed &&
        (Faultless(old(machine.faults)) ==> Faultless(machine.faults)) &&
        (Faultless(old(machine.faults)) ==>
          s.Done? || ParentsBlocked(old(machine.files), plan.journal.workRoot + ["backup", "0000"])) &&
        (Beginnable(old(machine.files), machine.configPath, root, machine.scopeId, id, requests) ==>
          OwnPlan(plan, root, machine.scopeId) && Safe(plan, machine) &&
          (t != null ==> t.Valid() && AllUntouched(plan, machine.files)) &&
          (t != null && Unblocked(old(machine.files), machine.configPath, plan.journal.workRoot, requests) ==>
             WaysOpen(plan, machine.files)))
    {
      plan := PlanFor(machine.files, machine.configPath, root, machine.scopeId, id, requests);
      t := null;
      if requests == [] { s := Threw(NoEntries); return; }
      if machine.journal.Some? { s := Threw(UnfinishedTransaction); return; }
      var workRoot := WorkRoot(root, machine.scopeId, id);
      var normalized := NormalizeEntries(machine.files, root, workRoot, requests);
      if normalized.Refused? { s := Threw(normalized.reason); return; }
      machine.committed := false;
      var first := Journal(SCHEMA_VERSION, id, root, workRoot, Prepared, normalized.value, false,
                           ConfigSnapshot(false, []));
      assert first.entries == plan.journal.entries;
      ghost var promised := Beginnable(machine.files, machine.configPath, root, machine.scopeId, id, requests);
      if promised { PlanIsOwn(machine.files, machine.configPath, root, machine.scopeId, id, requests); }
      assert Unblocked(machine.files, machine.configPath, workRoot, requests) ==> WaysClear(plan);
      s := OpenJournal(machine, root, first, plan);
      if !s.Done? { return; }
      t := new InstallTransaction(machine, root, first, plan);
    }

    /** `WriteJournal`: the journal alone changes; if the write fails, at most a temporary of it appears, which
        disturbs nothing. */
    method WriteJournal() returns (s: Status)
      requires |root| > 1 && OwnPlan(plan, root, machine.scopeId) && SameTransaction(journal, plan.journal)
      requires WellFormed(machine.files)
      modifies machine`files, machine`journal, machine`faults, machine`committed
      ensures s.Done? ==> machine.files == old(machine.files) && machine.journal == Some(journal)
      ensures !s.Done? ==> machine.journal == old(machine.journal) && Undamaged(plan, old(machine.files), machine.files)
      ensures !s.Done? ==> (old(Safe(plan, machine)) ==> Safe(plan, machine))
      ensures machine.committed == (old(machine.committed) || (s.Done? && journal.state == Committed))
      ensures WellFormed(machine.files)
      ensures Faultless(old(machine.faults)) ==> Faultless(machine.faults) && s.Done?
      ensures s.Threw? ==> s.reason == DeviceFailed
    {
      s := machine.WriteJournal(journal);
      JournalStepStaysSafe(plan, old(machine.files), machine.files, old(machine.journal), old(machine.committed));
    }

    /** The next state, in memory and then on disk. */
    method EnterState(state: TransactionState) returns (s: Status)
      requires Valid() && !finished
      modifies this`journal, machine`files, machine`journal, machine`faults, machine`committed
      ensures journal == old(journal).(state := state)
      ensures s.Done? ==> machine.files == old(machine.files) && machine.journal == Some(journal)
      ensures s.Done? ==> machine.committed == (old(machine.committed) || state == Committed)
      ensures !s.Done? ==> Valid() && Undamaged(plan, old(machine.files), machine.files)
      ensures !s.Done? ==> machine.journal == old(machine.journal) && machine.committed == old(machine.committed)
      ensures Faultless(old(machine.faults)) ==> Faultless(machine.faults) && s.Done?
      ensures s.Threw? ==> s.reason == DeviceFailed
    {
      journal := journal.(state := state);
      s := WriteJournal();
    }

    /** Moves every old destination aside and publishes every prepared entry; undoes it all if any
        step throws. */
    method Publish() returns (s: Status)
      requires Valid()
      modifies this, machine
      ensures Valid()
      ensures s.Done? ==> !finished && journal.state == Published && AllReplaced(plan, machine.files)
      ensures s == Threw(WrongState) <==> old(finished) || old(journal).state != Prepared
      ensures s == Threw(WrongState) ==> machine.files == old(machine.files) && finished == old(finished)
      ensures s == Threw(WrongState) ==> machine.journal == old(machine.journal) && journal == old(journal)
      ensures s.Done? ==> machine.journal == Some(journal) && journal == old(journal).(state := Published)
      ensures s.Done? ==> ConfigAt(machine.files, plan.configPath) == old(ConfigAt(machine.files, plan.configPath))
      ensures |plan.Entries()| > MAXIMUM_ENTRIES ==> finished == old(finished)
      ensures machine.committed == old(machine.committed)
      ensures old(Tidy(plan, machine)) ==> Tidy(plan, machine)
      ensures old(!finished && journal.state == Prepared && AllReady(plan, machine.files)) &&
              Faultless(old(machine.faults)) ==>
                s.Done? && Faultless(machine.faults) && WaysOpen(plan, machine.files)
    {
      if finished || journal.state != Prepared { return Threw(WrongState); }
      s := MoveAllIntoPlace();
      if s.Done? {
        s := EnterState(TransactionState.Published);
      }
      if s.Threw? {
        var undone := RollBack();
        if undone.PoweredOff? { s := PoweredOff; }
      }
    }

    /** Moves the old destination of each entry aside and the prepared contents into its place. On a disk that
        obeys and with the ways open, nothing stops it. */
    method MoveAllIntoPlace() returns (s: Status)
      requires Valid() && !finished
      modifies machine`files, machine`faults
      ensures Valid()
      ensures s.Done? ==> AllReplaced(plan, machine.files)
      ensures ConfigAt(machine.files, plan.configPath) == old(ConfigAt(machine.files, plan.configPath))
      ensures old(WaysOpen(plan, machine.files)) ==> WaysOpen(plan, machine.files)
      ensures Faultless(old(machine.faults)) ==> Faultless(machine.faults)
      ensures Faultless(old(machine.faults)) && old(AllReady(plan, machine.files)) ==> s.Done?
      ensures s.Threw? ==> s.reason in {DeviceFailed, SystemRefused}
    {
      s := PublishEntries(machine, plan, journal.entries);
    }

    /** Durably records a preimage of the configuration; what recovery then restores is that preimage, so
        that it had better be the configuration as it was before the transaction. */
    method RecordRuntimeConfigurationMutation(snapshot: ConfigSnapshot) returns (s: Status)
      requires Valid()
      modifies this`journal, machine`files, machine`journal, machine`faults, machine`committed
      ensures s == Threw(WrongState) <==> finished || old(journal).state != Published
      ensures s == Threw(WrongState) ==>
        journal == old(journal) && machine.journal == old(machine.journal) && machine.files == old(machine.files)
      ensures s != Threw(WrongState) ==>
                journal == old(journal).(configMutationPlanned := true, config := snapshot)
      ensures machine.journal == if s.Done? then Some(journal) else old(machine.journal)
      ensures snapshot == Capture(plan.begun, plan.configPath) ==> Valid()
      ensures s.Done? ==> machine.files == old(machine.files)
      ensures !s.Done? ==> Undamaged(plan, old(machine.files), machine.files)
      ensures machine.committed == old(machine.committed)
      ensures Faultless(old(machine.faults)) ==> Faultless(machine.faults) && (s.Done? || s == Threw(WrongState))
    {
      if finished || journal.state != Published { return Threw(WrongState); }
      journal := journal.(configMutationPlanned := true, config := snapshot);
      s := WriteJournal();
    }

    /** Makes the published paths authoritative. Sound exactly when every destination does hold what was
        prepared for it - which a caller knows once `Publish` has returned without throwing. */
    method Commit() returns (s: Status)
      requires Valid()
      modifies this, machine
      ensures Valid() <==> (machine.committed ==> Updated(plan, machine.files))
      ensures Updated(plan, machine.files) <==> old(Updated(plan, machine.files))
      ensures s == Threw(WrongState) <==> old(finished) || old(journal).state != Published
      ensures s == Threw(WrongState) ==>
        machine.files == old(machine.files) && machine.journal == old(machine.journal) &&
        machine.committed == old(machine.committed) && journal == old(journal) && finished == old(finished)
      ensures s.Done? ==> finished && machine.committed
      ensures s.Threw? && s.reason != WrongState ==>
        !finished && machine.committed == old(machine.committed) && machine.journal == old(machine.journal) &&
        journal == old(journal).(state := Committed)
      ensures ConfigAt(machine.files, plan.configPath) == old(ConfigAt(machine.files, plan.configPath))
      ensures old(Tidy(plan, machine)) ==> Tidy(plan, machine)
      ensures Faultless(old(machine.faults)) ==>
                s == Threw(WrongState) || (s.Done? && machine.committed && machine.journal == None)
    {
      if finished || journal.state != Published { return Threw(WrongState); }
      s := EnterState(Committed);
      if s.Done? {
        finished := true;
        s := CleanAfterCommit();
      }
    }

    /** The cleanup of `TryCleanCommitted`, without supposing anything about the destinations. */
    method CleanAfterCommit() returns (s: Status)
      requires Sensible(plan) && InOrder(plan, machine.files)
      requires SameTransaction(journal, plan.journal) && PreimageSafe(plan, journal)
      requires machine.journal == Some(journal) && journal.state == Committed && machine.committed
      modifies machine`files, machine`journal, machine`faults
      ensures !s.Threw? && machine.journal in {old(machine.journal), None}
      ensures Safe(plan, machine) <==> Updated(plan, machine.files)
      ensures Updated(plan, machine.files) <==> old(Updated(plan, machine.files))
      ensures ConfigAt(machine.files, plan.configPath) == old(ConfigAt(machine.files, plan.configPath))
      ensures Tidy(plan, machine)
      ensures Faultless(old(machine.faults)) ==> s.Done? && machine.journal == None
    {
      s := machine.DeleteDirectory(journal.workRoot);
      RootOfSubtree(machine.files, journal.workRoot);
      WorkRootStepKeepsRest(plan, old(machine.files), machine.files);
      if s.Done? {
        s := machine.DeleteJournal();
      }
      if s.Threw? { s := Done; }
    }

    /** Writes the recorded configuration back, or removes the one that was not there. */
    method RestoreConfig() returns (s: Status)
      requires Valid() && !finished && journal.configMutationPlanned && AllRestored(plan, machine.files)
      requires machine.journal.value.configMutationPlanned || ConfigKept(plan, machine.files)
      modifies machine`files, machine`faults
      ensures Valid() && AllRestored(plan, machine.files)
      ensures s.Done? ==> ConfigKept(plan, machine.files)
      ensures Faultless(old(machine.faults)) ==> Faultless(machine.faults) && s.Done?
      ensures s.Threw? ==> s.reason in {DeviceFailed, SystemRefused}
    {
      s := PutConfigBack(machine, plan, journal.config);
    }

    method Dispose() returns (s: Status)
      requires Valid()
      modifies this, machine
      ensures Valid()
      ensures old(finished) ==> s.Done? && machine.files == old(machine.files)
      ensures !old(finished) && s.Done? ==>
        Original(plan, machine.files) && machine.journal == None
      ensures old(Tidy(plan, machine)) ==> Tidy(plan, machine)
      ensures machine.committed == old(machine.committed)
    {
      if finished { return Done; }
      s := RollBack();
    }

    /** Restores every entry, last first, and then the configuration. Given a disk that obeys, this
        succeeds exactly when the journal has no more entries than validation allows. */
    method RollBack() returns (s: Status)
      requires Valid()
      modifies this, machine
      ensures Valid() && machine.committed == old(machine.committed)
      ensures old(finished) ==> s.Done? && machine.files == old(machine.files)
      ensures !old(finished) && s.Done? ==>
        Original(plan, machine.files) && machine.journal == None && finished
      ensures old(Tidy(plan, machine)) ==> Tidy(plan, machine)
      ensures s.Done? && !old(finished) ==> |plan.Entries()| <= MAXIMUM_ENTRIES
      ensures |plan.Entries()| > MAXIMUM_ENTRIES && !old(finished) ==>
        s == Threw(InvalidEntryCount) && machine.files == old(machine.files) && !finished
      ensures Faultless(old(machine.faults)) && |plan.Entries()| <= MAXIMUM_ENTRIES ==> s.Done?
      ensures s.Threw? ==> s.reason in {InvalidEntryCount, DeviceFailed, SystemRefused}
      ensures forall i | 0 <= i < |plan.Entries()| ::
        Restored(ViewOf(old(machine.files), plan.Entries()[i]), Was(plan, i)) ==>
        Subtree(machine.files, plan.Entries()[i].destination) == Was(plan, i).destination
    {
      if finished { return Done; }
      var valid := ValidateJournal(journal.installRoot, machine.scopeId, journal);
      if valid.Refused? { return Threw(valid.reason); }
      s := RollBackEntries(machine, plan, journal.entries);
      if !s.Done? { return; }
      if journal.configMutationPlanned {
        s := RestoreConfig();
        if !s.Done? { return; }
      }
      s := FinishRollBack();
    }

    /** From here on the originals are back; what is left is clearing up. */
    method FinishRollBack() returns (s: Status)
      requires Valid() && !finished && AllRestored(plan, machine.files) && ConfigKept(plan, machine.files)
      modifies this`journal, this`finished, machine
      ensures Valid() && machine.committed == old(machine.committed)
      ensures Original(plan, machine.files)
      ensures s.Done? ==> machine.journal == None && finished
      ensures Tidy(plan, machine)
      ensures Faultless(old(machine.faults)) ==> s.Done?
      ensures s.Threw? ==> s.reason == DeviceFailed
    {
      s := EnterState(RolledBack);
      if s.Done? {
        finished := true;
        s := CleanAfterRollBack();
      }
    }

    method CleanAfterRollBack() returns (s: Status)
      requires Sensible(plan) && Safe(plan, machine) && journal.workRoot == plan.journal.workRoot
      requires machine.journal.Some? && machine.journal.value.state == RolledBack
      modifies machine`files, machine`journal, machine`faults
      ensures Safe(plan, machine) && Original(plan, machine.files)
      ensures machine.journal == if s.Done? then None else old(machine.journal)
      ensures Tidy(plan, machine)
      ensures Faultless(old(machine.faults)) ==> s.Done?
      ensures s.Threw? ==> s.reason == DeviceFailed
    {
      s := machine.DeleteDirectory(journal.workRoot);
      RootOfSubtree(machine.files, journal.workRoot);
      WorkRootStepKeepsRest(plan, old(machine.files), machine.files);
      if s.Done? {
        s := machine.DeleteJournal();
      }
    }
  }

  /** Recovers the installation's one journal, if there is one. */
  method Recover(machine: Machine, root: Path, ghost plan: Plan) returns (s: Status)
    requires |root| > 1 && OwnPlan(plan, root, machine.scopeId) && machine.configPath == plan.configPath
    requires Safe(plan, machine)
    modifies machine
    ensures Safe(plan, machine) && machine.committed == old(machine.committed)
    ensures s.Done? ==> machine.journal == None
    ensures old(machine.journal) == None ==> s.Done? && machine.files == old(machine.files)
    ensures old(Tidy(plan, machine)) ==> Tidy(plan, machine)
    ensures machine.committed ==>
      ConfigAt(machine.files, plan.configPath) == ConfigAt(old(machine.files), plan.configPath)
    ensures Faultless(old(machine.faults)) && |plan.Entries()| <= MAXIMUM_ENTRIES ==> s.Done?
    ensures |plan.Entries()| > MAXIMUM_ENTRIES && old(machine.journal).Some? ==>
      s == Threw(InvalidEntryCount) && machine.files == old(machine.files) &&
      machine.journal == old(machine.journal)
    ensures s.Threw? ==> s.reason in {InvalidEntryCount, CleanupIncomplete, DeviceFailed, SystemRefused}
  {
    if machine.journal == None { return Done; }
    var journal := machine.journal.value;
    var valid := ValidateJournal(root, machine.scopeId, journal);
    if valid.Refused? { return Threw(valid.reason); }
    if journal.state in {Committed, RolledBack} {
      ghost var start := machine.files;
      s := TryCleanCommitted(machine, plan, journal);
      if s.Done? && machine.journal.Some? { s := Threw(CleanupIncomplete); }
      return;
    }
    var t := new InstallTransaction(machine, root, journal, plan);
    s := t.RollBack();
  }
}
