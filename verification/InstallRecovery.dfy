/** What a crash may leave of an install transaction: for every entry the trees at its destination,
    its backup and its prepared path, and how they relate to the trees before the transaction. */
module InstallRecovery {
  import opened Basics
  import opened FileTree
  import opened InstallJournal

  /** A transaction seen from outside: the file system it began on, its journal as first written, and
      the paths of that journal and of the runtime configuration. */
  datatype Plan = Plan(begun: FileSystem, journal: Journal, journalPath: Path, configPath: Path) {
    ghost function Entries(): seq<JournalEntry> { journal.entries }
  }

  datatype View = View(destination: Tree, backup: Tree, prepared: Tree)

  ghost function ViewOf(fs: FileSystem, e: JournalEntry): View {
    View(Subtree(fs, e.destination), Subtree(fs, e.backup), Subtree(fs, e.prepared))
  }

  ghost function Was(p: Plan, i: nat): View
    requires i < |p.Entries()|
  {
    ViewOf(p.begun, p.Entries()[i])
  }

  ghost predicate IsKind(tree: Tree, kind: Kind) {
    [] in tree && tree[[]].Dir? == kind.Directory?
  }

  // --------------------------------------------------------------------------- what one entry may be

  ghost predicate Untouched(v: View, was: View) {
    v == was
  }

  ghost predicate Replaced(v: View, was: View) {
    v.destination == was.prepared && v.backup == was.destination && v.prepared == NOTHING
  }

  ghost predicate Restored(v: View, was: View) {
    v.destination == was.destination && v.backup == NOTHING &&
    (v.prepared == was.prepared || v.prepared == NOTHING)
  }

  /** Enough is left to restore the original from. */
  ghost predicate Recoverable(v: View, was: View, e: JournalEntry) {
    (v.destination == NOTHING || IsKind(v.destination, e.kind)) &&
    (v.prepared == was.prepared || v.prepared == NOTHING) &&
    if e.originalExisted then
      v.backup == was.destination || (v.backup == NOTHING && v.destination == was.destination)
    else
      v.backup == NOTHING && (v.destination != NOTHING ==> v.prepared == NOTHING)
  }

  /** How an accepted entry looks before the transaction. */
  ghost predicate Sound(was: View, e: JournalEntry) {
    was.backup == NOTHING && IsKind(was.prepared, e.kind) &&
    if e.originalExisted then IsKind(was.destination, e.kind) else was.destination == NOTHING
  }

  // -------------------------------------------------------------------------- what the whole disk is

  ghost predicate Apart(a: JournalEntry, b: JournalEntry) {
    !Overlap(a.destination, b.destination) && !Overlap(a.destination, b.backup) &&
    !Overlap(a.destination, b.prepared) && !Overlap(a.backup, b.destination) &&
    !Overlap(a.backup, b.backup) && !Overlap(a.backup, b.prepared) &&
    !Overlap(a.prepared, b.destination) && !Overlap(a.prepared, b.backup) &&
    !Overlap(a.prepared, b.prepared)
  }

  ghost predicate ApartFrom(e: JournalEntry, path: Path) {
    !Overlap(e.destination, path) && !Overlap(e.backup, path) && !Overlap(e.prepared, path)
  }

  /** No temporary of a write disturbs the path. */
  ghost predicate Undisturbed(p: Plan, path: Path) {
    ClearOfTemporaries(p.configPath, path) && ClearOfTemporaries(p.journalPath, path)
  }

  ghost predicate Placed(p: Plan, e: JournalEntry) {
    Undisturbed(p, e.destination) && Undisturbed(p, e.backup) && Undisturbed(p, e.prepared) &&
    !Overlap(e.destination, e.backup) && !Overlap(e.destination, e.prepared) &&
    !Overlap(e.backup, e.prepared) && ApartFrom(e, p.configPath) &&
    p.journal.workRoot <= e.backup && p.journal.workRoot != e.backup &&
    !Overlap(e.destination, p.journal.workRoot) && !Overlap(e.prepared, p.journal.workRoot) &&
    e.destination != [] && e.backup != [] && e.prepared != []
  }

  ghost predicate Sensible(p: Plan) {
    WellFormed(p.begun) &&
    p.configPath != [] && !Overlap(p.configPath, p.journal.workRoot) && p.journal.workRoot != [] &&
    !IsTemporaryOf(p.configPath, p.journal.workRoot) && !IsTemporaryOf(p.journalPath, p.journal.workRoot) &&
    !IsTemporaryOf(p.journalPath, p.configPath) &&
    (p.configPath in p.begun ==> p.begun[p.configPath].File?) &&
    (forall i | 0 <= i < |p.Entries()| :: Placed(p, p.Entries()[i])) &&
    (forall i, j | 0 <= i < |p.Entries()| && 0 <= j < |p.Entries()| && i != j ::
       Apart(p.Entries()[i], p.Entries()[j])) &&
    (forall i | 0 <= i < |p.Entries()| :: Sound(Was(p, i), p.Entries()[i]))
  }

  ghost function ConfigAt(fs: FileSystem, path: Path): Option<Node> {
    if path in fs then Some(fs[path]) else None
  }

  function Capture(fs: FileSystem, path: Path): ConfigSnapshot {
    if path in fs && fs[path].File? then ConfigSnapshot(true, fs[path].bytes) else ConfigSnapshot(false, [])
  }

  ghost predicate ConfigKept(p: Plan, fs: FileSystem) {
    ConfigAt(fs, p.configPath) == ConfigAt(p.begun, p.configPath)
  }

  /** Paths the transaction has no business with. */
  ghost predicate Foreign(p: Plan, path: Path) {
    !(p.journal.workRoot <= path) && !(p.configPath <= path) &&
    forall i | 0 <= i < |p.Entries()| ::
      !(p.Entries()[i].destination <= path) && !(p.Entries()[i].prepared <= path)
  }

  /** A directory the transaction may have had to create. */
  ghost predicate OnTheWay(p: Plan, path: Path) {
    path < p.journal.workRoot || path < p.configPath ||
    exists i | 0 <= i < |p.Entries()| :: path < p.Entries()[i].destination
  }

  /** What may have been added to the disk: a directory on the way, or the temporary of an unfinished write
      of the journal or the configuration. */
  ghost predicate MayAppear(p: Plan, path: Path, node: Node) {
    (node.Dir? && OnTheWay(p, path)) ||
    (node.File? && (IsTemporaryOf(p.configPath, path) || IsTemporaryOf(p.journalPath, path)))
  }

  /** Everything else on the disk is as it was. */
  ghost predicate RestKept(p: Plan, fs: FileSystem) {
    forall path: Path | Foreign(p, path) ::
      (path in p.begun ==> path in fs && fs[path] == p.begun[path]) &&
      (path in fs && path !in p.begun ==> MayAppear(p, path, fs[path]))
  }

  ghost predicate AllUntouched(p: Plan, fs: FileSystem) {
    forall i | 0 <= i < |p.Entries()| :: Untouched(ViewOf(fs, p.Entries()[i]), Was(p, i))
  }

  ghost predicate AllReplaced(p: Plan, fs: FileSystem) {
    forall i | 0 <= i < |p.Entries()| :: Replaced(ViewOf(fs, p.Entries()[i]), Was(p, i))
  }

  ghost predicate AllRecoverable(p: Plan, fs: FileSystem) {
    forall i | 0 <= i < |p.Entries()| :: Recoverable(ViewOf(fs, p.Entries()[i]), Was(p, i), p.Entries()[i])
  }

  ghost predicate AllRestored(p: Plan, fs: FileSystem) {
    forall i | 0 <= i < |p.Entries()| :: Restored(ViewOf(fs, p.Entries()[i]), Was(p, i))
  }

  /** What was restored still is. */
  ghost predicate StillRestored(p: Plan, fs: FileSystem, after: FileSystem) {
    forall i | 0 <= i < |p.Entries()| ::
      Restored(ViewOf(fs, p.Entries()[i]), Was(p, i)) ==> Restored(ViewOf(after, p.Entries()[i]), Was(p, i))
  }

  /** Every destination holds its original contents, and so does the configuration. */
  ghost predicate Original(p: Plan, fs: FileSystem) {
    (forall i | 0 <= i < |p.Entries()| :: Subtree(fs, p.Entries()[i].destination) == Was(p, i).destination) &&
    ConfigKept(p, fs)
  }

  /** Every destination holds what had been prepared for it. */
  ghost predicate Updated(p: Plan, fs: FileSystem) {
    forall i | 0 <= i < |p.Entries()| :: Subtree(fs, p.Entries()[i].destination) == Was(p, i).prepared
  }

  // ------------------------------------------------------------------------------ the crash invariant

  ghost predicate SameTransaction(j: Journal, k: Journal) {
    j == k.(state := j.state, configMutationPlanned := j.configMutationPlanned, config := j.config)
  }

  ghost predicate PreimageSafe(p: Plan, j: Journal) {
    j.configMutationPlanned ==> j.config == Capture(p.begun, p.configPath)
  }

  /** The disk is well formed, and nothing has got in the way of the transaction. */
  ghost predicate InOrder(p: Plan, fs: FileSystem) {
    WellFormed(fs) && RestKept(p, fs) &&
    (p.configPath in fs ==> fs[p.configPath].File?) &&
    (p.journal.workRoot in fs ==> fs[p.journal.workRoot].Dir?)
  }

  /** Holds at every instant from the moment the journal is on disk: what a machine that stops now can
      still be brought back from. */
  ghost predicate CrashSafe(p: Plan, fs: FileSystem, journal: Option<Journal>, committed: bool) {
    match journal
    case None => InOrder(p, fs) && if committed then Updated(p, fs) else Original(p, fs)
    case Some(j) =>
      InOrder(p, fs) && SameTransaction(j, p.journal) && PreimageSafe(p, j) &&
      (committed <==> j.state == Committed) &&
      match j.state {
        case Committed => Updated(p, fs)
        case RolledBack => Original(p, fs)
        case _ => AllRecoverable(p, fs) && (!j.configMutationPlanned ==> ConfigKept(p, fs))
      }
  }

  // ----------------------------------------------------------------- steps that touch one entry only

  /** Nothing changed outside the three trees of one entry, except that directories may have been
      created on the way to its destination or its backup. */
  ghost predicate Confined(fs: FileSystem, after: FileSystem, e: JournalEntry) {
    forall p: Path | !(e.destination <= p) && !(e.backup <= p) && !(e.prepared <= p) ::
      (p in fs ==> p in after && after[p] == fs[p]) &&
      (p in after && p !in fs ==> after[p].Dir? && (p < e.destination || p < e.backup))
  }

  lemma LocalIsConfined(fs: FileSystem, after: FileSystem, e: JournalEntry, a: Path, b: Path)
    requires Local(fs, after, a, b)
    requires a in {e.destination, e.backup, e.prepared} && b in {e.destination, e.backup}
    ensures Confined(fs, after, e)
  {
  }

  lemma ConfinedSteps(fs: FileSystem, middle: FileSystem, after: FileSystem, e: JournalEntry)
    requires Confined(fs, middle, e) && Confined(middle, after, e)
    ensures Confined(fs, after, e)
  {
  }

  lemma ConfinedKeepsSubtree(fs: FileSystem, after: FileSystem, e: JournalEntry, r: Path)
    requires Confined(fs, after, e) && ApartFrom(e, r)
    ensures Subtree(after, r) == Subtree(fs, r)
  {
    forall below: Path
      ensures r + below in after <==> r + below in fs
      ensures r + below in fs ==> after[r + below] == fs[r + below]
    {
      DisjointBelow(r, e.destination, below);
      DisjointBelow(r, e.backup, below);
      DisjointBelow(r, e.prepared, below);
      assert r <= r + below;
    }
  }

  lemma OtherViewsKept(p: Plan, fs: FileSystem, after: FileSystem, i: nat)
    requires Sensible(p) && i < |p.Entries()| && Confined(fs, after, p.Entries()[i])
    ensures forall j | 0 <= j < |p.Entries()| && j != i ::
      ViewOf(after, p.Entries()[j]) == ViewOf(fs, p.Entries()[j])
    ensures ConfigAt(after, p.configPath) == ConfigAt(fs, p.configPath)
  {
    var e := p.Entries()[i];
    forall j | 0 <= j < |p.Entries()| && j != i
      ensures ViewOf(after, p.Entries()[j]) == ViewOf(fs, p.Entries()[j])
    {
      var other := p.Entries()[j];
      assert Apart(e, other);
      ConfinedKeepsSubtree(fs, after, e, other.destination);
      ConfinedKeepsSubtree(fs, after, e, other.backup);
      ConfinedKeepsSubtree(fs, after, e, other.prepared);
    }
    assert Placed(p, e);
  }

  lemma PrefixesCompare(a: Path, b: Path, path: Path)
    requires a <= path && b <= path
    ensures Overlap(a, b)
  {
    if |a| <= |b| {
      assert a == path[..|a|] == b[..|a|];
    } else {
      assert b == path[..|b|] == a[..|b|];
    }
  }

  lemma RestStaysKept(p: Plan, fs: FileSystem, after: FileSystem, i: nat)
    requires Sensible(p) && i < |p.Entries()| && Confined(fs, after, p.Entries()[i]) && RestKept(p, fs)
    requires p.journal.workRoot in fs ==> fs[p.journal.workRoot].Dir?
    ensures RestKept(p, after)
    ensures p.journal.workRoot in after ==> after[p.journal.workRoot].Dir?
  {
    var e := p.Entries()[i];
    assert Placed(p, e);
    forall path: Path | Foreign(p, path)
      ensures path in p.begun ==> path in after && after[path] == p.begun[path]
      ensures path in after && path !in p.begun ==> MayAppear(p, path, after[path])
    {
      assert e.backup <= path ==> p.journal.workRoot <= path;
      if path in after && path !in fs && path < e.backup {
        PrefixesCompare(path, p.journal.workRoot, e.backup);
      }
    }
  }

  lemma WorkRootStepKeepsRest(p: Plan, fs: FileSystem, after: FileSystem)
    requires Sensible(p) && Local(fs, after, p.journal.workRoot, p.journal.workRoot)
    ensures RestKept(p, fs) ==> RestKept(p, after)
    ensures ConfigAt(after, p.configPath) == ConfigAt(fs, p.configPath)
    ensures forall i | 0 <= i < |p.Entries()| ::
      Subtree(after, p.Entries()[i].destination) == Subtree(fs, p.Entries()[i].destination) &&
      Subtree(after, p.Entries()[i].prepared) == Subtree(fs, p.Entries()[i].prepared)
  {
    var w := p.journal.workRoot;
    forall i | 0 <= i < |p.Entries()|
      ensures Subtree(after, p.Entries()[i].destination) == Subtree(fs, p.Entries()[i].destination)
      ensures Subtree(after, p.Entries()[i].prepared) == Subtree(fs, p.Entries()[i].prepared)
    {
      assert Placed(p, p.Entries()[i]);
      LocalKeepsSubtree(fs, after, w, w, p.Entries()[i].destination);
      LocalKeepsSubtree(fs, after, w, w, p.Entries()[i].prepared);
    }
  }

  /** Writing or deleting the configuration disturbs nothing else. */
  lemma ConfigStepKeepsRest(p: Plan, fs: FileSystem, after: FileSystem)
    requires Sensible(p) && Written(fs, after, p.configPath)
    ensures RestKept(p, fs) ==> RestKept(p, after)
    ensures forall i | 0 <= i < |p.Entries()| :: ViewOf(after, p.Entries()[i]) == ViewOf(fs, p.Entries()[i])
    ensures p.journal.workRoot in after ==>
      p.journal.workRoot in fs && after[p.journal.workRoot] == fs[p.journal.workRoot]
  {
    forall i | 0 <= i < |p.Entries()| ensures ViewOf(after, p.Entries()[i]) == ViewOf(fs, p.Entries()[i]) {
      var e := p.Entries()[i];
      assert Placed(p, e);
      WrittenKeepsSubtree(fs, after, p.configPath, e.destination);
      WrittenKeepsSubtree(fs, after, p.configPath, e.backup);
      WrittenKeepsSubtree(fs, after, p.configPath, e.prepared);
    }
  }

  /** What matters of the disk is as it was. */
  ghost predicate Undamaged(p: Plan, fs: FileSystem, after: FileSystem) {
    (Original(p, fs) ==> Original(p, after)) && (Updated(p, fs) <==> Updated(p, after)) &&
    (AllReplaced(p, fs) ==> AllReplaced(p, after)) && (AllRestored(p, fs) ==> AllRestored(p, after)) &&
    ConfigAt(after, p.configPath) == ConfigAt(fs, p.configPath)
  }

  lemma JournalStepKeepsViews(p: Plan, fs: FileSystem, after: FileSystem, i: nat)
    requires Sensible(p) && Littered(fs, after, p.journalPath) && i < |p.Entries()|
    ensures ViewOf(after, p.Entries()[i]) == ViewOf(fs, p.Entries()[i])
    ensures Subtree(after, p.Entries()[i].destination) == Subtree(fs, p.Entries()[i].destination)
  {
    var e := p.Entries()[i];
    assert Placed(p, e);
    LitteredKeepsSubtree(fs, after, p.journalPath, e.destination);
    LitteredKeepsSubtree(fs, after, p.journalPath, e.backup);
    LitteredKeepsSubtree(fs, after, p.journalPath, e.prepared);
  }

  /** Every entry's trees are as they were. */
  ghost predicate SameViews(p: Plan, fs: FileSystem, after: FileSystem) {
    forall i | 0 <= i < |p.Entries()| ::
      ViewOf(after, p.Entries()[i]) == ViewOf(fs, p.Entries()[i]) &&
      Subtree(after, p.Entries()[i].destination) == Subtree(fs, p.Entries()[i].destination)
  }

  lemma SameViewsUndamaged(p: Plan, fs: FileSystem, after: FileSystem)
    requires SameViews(p, fs, after) && ConfigAt(after, p.configPath) == ConfigAt(fs, p.configPath)
    ensures Undamaged(p, fs, after)
    ensures AllUntouched(p, fs) ==> AllUntouched(p, after)
    ensures AllRecoverable(p, fs) ==> AllRecoverable(p, after)
  {
  }

  lemma SameViewsStaySafe(p: Plan, fs: FileSystem, after: FileSystem, journal: Option<Journal>, committed: bool)
    requires SameViews(p, fs, after) && ConfigAt(after, p.configPath) == ConfigAt(fs, p.configPath)
    requires InOrder(p, fs) ==> InOrder(p, after)
    ensures CrashSafe(p, fs, journal, committed) ==> CrashSafe(p, after, journal, committed)
  {
    SameViewsUndamaged(p, fs, after);
  }

  /** Writing the journal disturbs nothing, whether or not it leaves a temporary. */
  lemma JournalStepStaysSafe(p: Plan, fs: FileSystem, after: FileSystem, journal: Option<Journal>, committed: bool)
    requires Sensible(p) && Littered(fs, after, p.journalPath) && WellFormed(after)
    ensures CrashSafe(p, fs, journal, committed) ==> CrashSafe(p, after, journal, committed)
    ensures AllUntouched(p, fs) ==> AllUntouched(p, after)
    ensures Undamaged(p, fs, after)
  {
    assert SameViews(p, fs, after) by {
      forall i | 0 <= i < |p.Entries()|
        ensures ViewOf(after, p.Entries()[i]) == ViewOf(fs, p.Entries()[i])
        ensures Subtree(after, p.Entries()[i].destination) == Subtree(fs, p.Entries()[i].destination)
      {
        JournalStepKeepsViews(p, fs, after, i);
      }
    }
    JournalStepKeepsOrder(p, fs, after);
    SameViewsUndamaged(p, fs, after);
    SameViewsStaySafe(p, fs, after, journal, committed);
  }

  lemma JournalStepKeepsOrder(p: Plan, fs: FileSystem, after: FileSystem)
    requires Sensible(p) && Littered(fs, after, p.journalPath) && WellFormed(after)
    ensures InOrder(p, fs) ==> InOrder(p, after)
    ensures ConfigAt(after, p.configPath) == ConfigAt(fs, p.configPath)
  {
    JournalStepKeepsRest(p, fs, after);
  }

  lemma JournalStepKeepsRest(p: Plan, fs: FileSystem, after: FileSystem)
    requires Littered(fs, after, p.journalPath)
    ensures RestKept(p, fs) ==> RestKept(p, after)
  {
  }

  /** Where the transaction puts things, no file stands in the way. */
  ghost predicate WaysOpen(p: Plan, fs: FileSystem) {
    !ParentsBlocked(fs, p.configPath) &&
    forall i | 0 <= i < |p.Entries()| ::
      !ParentsBlocked(fs, p.Entries()[i].destination) && !ParentsBlocked(fs, p.Entries()[i].backup)
  }

  /** One entry as it was, with the way open to where it and its backup go. */
  ghost predicate ReadyToPublish(fs: FileSystem, e: JournalEntry, was: View) {
    Untouched(ViewOf(fs, e), was) && !ParentsBlocked(fs, e.destination) && !ParentsBlocked(fs, e.backup)
  }

  /** All entries are as they were, with all ways open. */
  ghost predicate AllReady(p: Plan, fs: FileSystem) {
    AllUntouched(p, fs) && WaysOpen(p, fs)
  }

  /** Nothing of the entry lies on the way to the path. */
  ghost predicate OffTheWay(e: JournalEntry, path: Path) {
    !(e.destination < path) && !(e.backup < path) && !(e.prepared < path)
  }

  lemma BelowIsBelow(a: Path, b: Path, c: Path)
    requires b < c
    ensures a <= b ==> a < c
  {
  }

  lemma ConfinedKeepsWay(fs: FileSystem, after: FileSystem, e: JournalEntry, path: Path)
    requires Confined(fs, after, e) && OffTheWay(e, path) && !ParentsBlocked(fs, path)
    ensures !ParentsBlocked(after, path)
  {
    forall n | 1 <= n < |path| && path[..n] in after ensures after[path[..n]].Dir? {
      assert path[..n] < path;
      BelowIsBelow(e.destination, path[..n], path);
      BelowIsBelow(e.backup, path[..n], path);
      BelowIsBelow(e.prepared, path[..n], path);
    }
  }

  lemma ConfinedKeepsWays(p: Plan, fs: FileSystem, after: FileSystem, i: nat)
    requires Sensible(p) && i < |p.Entries()| && Confined(fs, after, p.Entries()[i]) && WaysOpen(p, fs)
    ensures WaysOpen(p, after)
  {
    var e := p.Entries()[i];
    assert Placed(p, e);
    ConfinedKeepsWay(fs, after, e, p.configPath);
    forall j | 0 <= j < |p.Entries()|
      ensures !ParentsBlocked(after, p.Entries()[j].destination) && !ParentsBlocked(after, p.Entries()[j].backup)
    {
      if j != i { assert Apart(e, p.Entries()[j]); }
      ConfinedKeepsWay(fs, after, e, p.Entries()[j].destination);
      ConfinedKeepsWay(fs, after, e, p.Entries()[j].backup);
    }
  }

  /** Nothing recovery needs is ever blocked: the directories on the way to an original are still there. */
  lemma WayToOriginalIsOpen(p: Plan, fs: FileSystem, i: nat)
    requires Sensible(p) && RestKept(p, fs) && i < |p.Entries()| && p.Entries()[i].originalExisted
    ensures OpenWay(fs, p.Entries()[i].destination)
  {
    var d := p.Entries()[i].destination;
    assert Placed(p, p.Entries()[i]) && Sound(Was(p, i), p.Entries()[i]);
    RootOfSubtree(p.begun, d);
    forall n | 1 <= n < |d| ensures d[..n] in fs && fs[d[..n]].Dir? {
      assert d[..n] in p.begun && p.begun[d[..n]].Dir?;
      AncestorOfOneEntryIsForeign(p, i, d[..n]);
    }
  }

  lemma AncestorOfOneEntryIsForeign(p: Plan, i: nat, path: Path)
    requires Sensible(p) && i < |p.Entries()| && path < p.Entries()[i].destination
    ensures Foreign(p, path)
  {
    var e := p.Entries()[i];
    assert Placed(p, e);
    forall r: Path | r <= path ensures Overlap(r, e.destination) && r != e.destination {
      assert r == path[..|r|] == e.destination[..|r|];
    }
    forall j | 0 <= j < |p.Entries()|
      ensures !(p.Entries()[j].destination <= path) && !(p.Entries()[j].prepared <= path)
    {
      if j != i { assert Apart(p.Entries()[j], e); }
    }
  }

  lemma WayToConfigIsOpen(p: Plan, fs: FileSystem)
    requires Sensible(p) && RestKept(p, fs) && p.configPath in p.begun
    ensures OpenWay(fs, p.configPath)
  {
    var c := p.configPath;
    forall n | 1 <= n < |c| ensures c[..n] in fs && fs[c[..n]].Dir? {
      assert c[..n] in p.begun && p.begun[c[..n]].Dir?;
      forall i | 0 <= i < |p.Entries()|
        ensures !(p.Entries()[i].destination <= c[..n]) && !(p.Entries()[i].prepared <= c[..n])
      {
        assert Placed(p, p.Entries()[i]) && c[..n] <= c;
      }
      assert Foreign(p, c[..n]);
    }
  }
}
