/** Whole runs: a transaction used the way the installer uses it, stopped anywhere, and then as many
    interrupted recoveries as it takes. */
module InstallRuns {
  import opened Basics
  import opened FileTree
  import opened InstallJournal
  import opened InstallRecovery
  import opened InstallMachine
  import opened InstallTransactions

  /** What the owner of a transaction does with it, between `Begin` and `Dispose`. */
  datatype Call = Publish | RecordConfig | WriteConfig(bytes: seq<bv8>) | Commit

  /** A call, and whether its owner would catch its exception and go on. */
  datatype Attempt = Attempt(call: Call, caught: bool)

  /** The configuration is only written once its preimage has been recorded: some recording before it either
      went through or ended the block. */
  ghost predicate RecordsBeforeWriting(attempts: seq<Attempt>) {
    forall i {:trigger attempts[..i]} | 0 <= i < |attempts| && attempts[i].call.WriteConfig? ::
      Attempt(RecordConfig, false) in attempts[..i]
  }

  /** No commit after a publication whose failure was caught. */
  ghost predicate CommitsWhatItPublished(attempts: seq<Attempt>) {
    forall i {:trigger attempts[..i]} | 0 <= i < |attempts| && attempts[i].call.Commit? ::
      Attempt(Publish, true) !in attempts[..i]
  }

  /** What an update does: publish, then record and write the configuration any number of times, then commit. */
  ghost predicate Orderly(attempts: seq<Attempt>) {
    |attempts| >= 2 && attempts[0].call.Publish? && attempts[|attempts| - 1].call.Commit? &&
    forall i | 0 < i < |attempts| - 1 :: attempts[i].call.RecordConfig? || attempts[i].call.WriteConfig?
  }

  /** The configuration after the calls that returned with these outcomes: what the last completed write of
      it wrote, or what it was. */
  function ConfigAfter(was: Option<Node>, attempts: seq<Attempt>, outcomes: seq<Status>): Option<Node>
    requires |outcomes| <= |attempts|
  {
    if outcomes == [] then was
    else
      var last := |outcomes| - 1;
      ConfigOnce(ConfigAfter(was, attempts, outcomes[..last]), attempts[last].call, outcomes[last])
  }

  function ConfigOnce(was: Option<Node>, call: Call, outcome: Status): Option<Node> {
    if call.WriteConfig? && outcome.Done? then Some(File(call.bytes)) else was
  }

  /** The block goes on after this call. */
  predicate Continues(attempt: Attempt, outcome: Status) {
    if attempt.call.Commit? && outcome.Done? then false
    else outcome.Done? || (outcome.Threw? && attempt.caught)
  }

  /** Outcomes of the first of these calls: each but the last let the block go on. */
  ghost predicate Performed(attempts: seq<Attempt>, outcomes: seq<Status>) {
    |outcomes| <= |attempts| && forall i | 0 <= i < |outcomes| - 1 :: Continues(attempts[i], outcomes[i])
  }

  /** The last of the calls that were made is a commit. */
  predicate LastIsCommit(attempts: seq<Attempt>, outcomes: seq<Status>) {
    0 < |outcomes| <= |attempts| && attempts[|outcomes| - 1].call.Commit?
  }

  /** The body of the caller's `using` block: any calls in any order, the first failure that is not caught
      ending the block. Disposal follows unless the power went. */
  method Session(m: Machine, root: Path, id: nat, requests: seq<PublishEntry>, attempts: seq<Attempt>)
    returns (s: Status, ghost plan: Plan, ghost outcomes: seq<Status>)
    requires |root| > 1 && m.journal == None && RecordsBeforeWriting(attempts)
    requires Beginnable(m.files, m.configPath, root, m.scopeId, id, requests)
    requires requests != [] && Acceptable(m.files, root, requests)
    modifies m
    ensures plan == PlanFor(old(m.files), m.configPath, root, m.scopeId, id, requests)
    ensures OwnPlan(plan, root, m.scopeId)
    ensures Safe(plan, m) <==> (m.committed ==> Updated(plan, m.files))
    ensures CommitsWhatItPublished(attempts) ==> Safe(plan, m)
    ensures s.Done? && Safe(plan, m) ==> if m.committed then Updated(plan, m.files) else Original(plan, m.files)
    ensures Performed(attempts, outcomes)
    ensures m.committed ==> LastIsCommit(attempts, outcomes)
    ensures CommitsWhatItPublished(attempts) && m.committed ==>
      ConfigAt(m.files, plan.configPath) == ConfigAfter(ConfigAt(plan.begun, plan.configPath), attempts, outcomes)
    ensures outcomes != [] ==> Tidy(plan, m)
    ensures Faultless(old(m.faults)) && Orderly(attempts) &&
            Unblocked(old(m.files), m.configPath, WorkRoot(root, m.scopeId, id), requests) ==>
              s.Done? && m.committed && m.journal == None
  {
    outcomes := [];
    var t: InstallTransaction?;
    var snapshot: ConfigSnapshot;
    s, t, snapshot, plan := Open(m, root, id, requests);
    if t != null { s, outcomes := UsingBlock(m, t, plan, attempts, snapshot); }
  }

  /** A transaction begins, or its beginning is refused and may be forgotten. */
  method Open(m: Machine, root: Path, id: nat, requests: seq<PublishEntry>)
    returns (s: Status, t: InstallTransaction?, snapshot: ConfigSnapshot, ghost plan: Plan)
    requires |root| > 1 && m.journal == None
    requires Beginnable(m.files, m.configPath, root, m.scopeId, id, requests)
    requires requests != [] && Acceptable(m.files, root, requests)
    modifies m
    ensures plan == PlanFor(old(m.files), m.configPath, root, m.scopeId, id, requests)
    ensures snapshot == Capture(plan.begun, plan.configPath)
    ensures OwnPlan(plan, root, m.scopeId) && Safe(plan, m) && !m.committed && (s.Done? <==> t != null)
    ensures t != null ==> fresh(t) && !t.finished && Healthy(t, plan, m) && ConfigKept(plan, m.files) && Tidy(plan, m)
    ensures Faultless(old(m.faults)) &&
            Unblocked(old(m.files), m.configPath, WorkRoot(root, m.scopeId, id), requests) ==>
              t != null && Smooth(t, plan, m, false)
  {
    snapshot := Capture(m.files, m.configPath);
    s, t, plan := InstallTransaction.Begin(m, root, id, requests);
  }

  /** The `using` block and what follows it. */
  method UsingBlock(m: Machine, t: InstallTransaction, ghost p: Plan, attempts: seq<Attempt>, snapshot: ConfigSnapshot)
    returns (s: Status, ghost outcomes: seq<Status>)
    requires Healthy(t, p, m) && !t.finished && RecordsBeforeWriting(attempts)
    requires snapshot == Capture(p.begun, p.configPath) && ConfigKept(p, m.files) && Tidy(p, m)
    modifies m, t
    ensures Tidy(p, m)
    ensures Orderly(attempts) && old(Smooth(t, p, m, false)) ==> s.Done? && m.committed && m.journal == None
    ensures Safe(p, m) <==> (m.committed ==> Updated(p, m.files))
    ensures CommitsWhatItPublished(attempts) ==> Safe(p, m)
    ensures s.Done? && Safe(p, m) ==> if m.committed then Updated(p, m.files) else Original(p, m.files)
    ensures Performed(attempts, outcomes)
    ensures m.committed ==> LastIsCommit(attempts, outcomes)
    ensures CommitsWhatItPublished(attempts) && m.committed ==>
      ConfigAt(m.files, p.configPath) == ConfigAfter(ConfigAt(p.begun, p.configPath), attempts, outcomes)
  {
    s, outcomes := PerformAll(m, t, p, attempts, snapshot);
    if !s.PoweredOff? { s := End(m, t, p); }
  }

  /** The end of the `using` block, a commit's or any other. */
  method End(m: Machine, t: InstallTransaction, ghost p: Plan) returns (s: Status)
    requires t.machine == m && t.plan == p && (t.finished || t.Valid())
    requires t.Valid() <==> (m.committed ==> Updated(p, m.files))
    modifies m, t
    ensures m.committed == old(m.committed) && (old(t.Valid()) ==> t.Valid())
    ensures m.committed ==> m.files == old(m.files) && m.journal == old(m.journal)
    ensures old(t.finished) ==> s.Done?
    ensures old(Tidy(p, m)) ==> Tidy(p, m)
    ensures Safe(p, m) <==> (m.committed ==> Updated(p, m.files))
    ensures s.Done? && Safe(p, m) ==> if m.committed then Updated(p, m.files) else Original(p, m.files)
  {
    if t.finished { return Done; }
    s := t.Dispose();
  }

  /** The calls in turn, up to the first failure that is not caught, or to a commit: whatever follows a
      commit, a finished transaction refuses it. The transaction can be recovered unless it was committed
      with a destination that does not hold what was prepared for it - and that takes a publication that
      failed, was not undone, and was committed all the same. */
  method PerformAll(m: Machine, t: InstallTransaction, ghost p: Plan, attempts: seq<Attempt>, snapshot: ConfigSnapshot)
    returns (s: Status, ghost outcomes: seq<Status>)
    requires Healthy(t, p, m) && !t.finished && RecordsBeforeWriting(attempts)
    requires snapshot == Capture(p.begun, p.configPath) && ConfigKept(p, m.files) && Tidy(p, m)
    modifies m, t
    ensures Tidy(p, m)
    ensures Orderly(attempts) && old(Smooth(t, p, m, false)) ==>
      s.Done? && t.finished && m.committed && m.journal == None
    ensures Performed(attempts, outcomes)
    ensures m.committed ==> LastIsCommit(attempts, outcomes)
    ensures BlockLeft(t, p, m, s, CommitsWhatItPublished(attempts),
                      ConfigAfter(ConfigAt(p.begun, p.configPath), attempts, outcomes))
  {
    outcomes := [];
    ghost var clean, recorded, config := true, false, ConfigAt(p.begun, p.configPath);
    ghost var smooth := Orderly(attempts) && Smooth(t, p, m, false);
    for i := 0 to |attempts|
      invariant Standing(t, p, m, clean, recorded, config) && Tidy(p, m)
      invariant smooth ==> Orderly(attempts) && i < |attempts| && Smooth(t, p, m, i > 0)
      invariant |outcomes| == i && AllContinued(attempts, outcomes)
      invariant config == ConfigAfter(ConfigAt(p.begun, p.configPath), attempts, outcomes)
      invariant clean <==> Attempt(Publish, true) !in attempts[..i]
      invariant recorded <==> Attempt(RecordConfig, false) in attempts[..i]
    {
      if smooth { OrderlyCall(attempts, i); }
      s := Advance(m, t, p, attempts[i], snapshot, clean, recorded, config);
      OneMoreOutcome(ConfigAt(p.begun, p.configPath), attempts, outcomes, s);
      outcomes, config := outcomes + [s], ConfigOnce(config, attempts[i].call, s);
      if !Continues(attempts[i], s) { return; }
      OneMoreAttempt(attempts, i, Attempt(Publish, true));
      OneMoreAttempt(attempts, i, Attempt(RecordConfig, false));
      clean := clean && attempts[i] != Attempt(Publish, true);
      recorded := recorded || attempts[i] == Attempt(RecordConfig, false);
    }
    s := Done;
  }

  lemma OrderlyCall(attempts: seq<Attempt>, i: nat)
    requires Orderly(attempts) && i < |attempts|
    ensures attempts[i].call.Publish? <==> i == 0
    ensures attempts[i].call.Commit? <==> i == |attempts| - 1
  {
  }

  ghost predicate AllContinued(attempts: seq<Attempt>, outcomes: seq<Status>) {
    |outcomes| <= |attempts| && forall i | 0 <= i < |outcomes| :: Continues(attempts[i], outcomes[i])
  }

  lemma OneMoreOutcome(was: Option<Node>, attempts: seq<Attempt>, outcomes: seq<Status>, s: Status)
    requires |outcomes| < |attempts| && AllContinued(attempts, outcomes)
    ensures Performed(attempts, outcomes + [s])
    ensures Continues(attempts[|outcomes|], s) ==> AllContinued(attempts, outcomes + [s])
    ensures ConfigAfter(was, attempts, outcomes + [s]) ==
            ConfigOnce(ConfigAfter(was, attempts, outcomes), attempts[|outcomes|].call, s)
  {
    assert (outcomes + [s])[..|outcomes|] == outcomes;
  }

  /** How a transaction stands in its block: whether no failed publication has been caught, whether the
      configuration may be written, and what it holds. */
  ghost predicate Standing(t: InstallTransaction, p: Plan, m: Machine, clean: bool, recorded: bool,
                           config: Option<Node>)
    reads t, m
  {
    t.machine == m && t.plan == p && t.Valid() && !m.committed && (recorded ==> Recorded(t, m)) &&
    (clean ==> Healthy(t, p, m) && ConfigAt(m.files, p.configPath) == config)
  }

  /** Nothing has failed, nothing will, and nothing is in the way. */
  ghost predicate Smooth(t: InstallTransaction, p: Plan, m: Machine, published: bool)
    reads t, m
  {
    Faultless(m.faults) && !t.finished &&
    if published then t.journal.state == TransactionState.Published && !ParentsBlocked(m.files, p.configPath)
    else t.journal.state == Prepared && AllReady(p, m.files)
  }

  /** ... and how a call ends there. */
  ghost predicate GoesWell(t: InstallTransaction, p: Plan, m: Machine, call: Call, s: Status)
    reads t, m
  {
    s.Done? && if call.Commit? then t.finished && m.committed && m.journal == None else Smooth(t, p, m, true)
  }

  /** How the block is left: `sound` if nothing was committed that a failed publication had left. */
  ghost predicate BlockLeft(t: InstallTransaction, p: Plan, m: Machine, s: Status, sound: bool, config: Option<Node>)
    reads t, m
  {
    t.machine == m && t.plan == p && (t.Valid() <==> (m.committed ==> Updated(p, m.files))) &&
    (sound ==> t.Valid()) && (!t.finished && !s.PoweredOff? ==> t.Valid()) &&
    (m.committed && !s.PoweredOff? ==> t.finished) &&
    (sound && m.committed ==> ConfigAt(m.files, p.configPath) == config)
  }

  method Advance(m: Machine, t: InstallTransaction, ghost p: Plan, attempt: Attempt, snapshot: ConfigSnapshot,
                 ghost clean: bool, ghost recorded: bool, ghost config: Option<Node>) returns (s: Status)
    requires Standing(t, p, m, clean, recorded, config) && snapshot == Capture(p.begun, p.configPath)
    requires attempt.call.WriteConfig? ==> recorded
    modifies m, t
    ensures m.committed ==> attempt.call.Commit?
    ensures old(Tidy(p, m)) ==> Tidy(p, m)
    ensures old(Smooth(t, p, m, !attempt.call.Publish?)) ==> GoesWell(t, p, m, attempt.call, s)
    ensures BlockLeft(t, p, m, s, attempt.call.Commit? ==> clean, ConfigOnce(config, attempt.call, s))
    ensures Continues(attempt, s) ==>
      Standing(t, p, m, clean && attempt != Attempt(Publish, true), recorded || attempt == Attempt(RecordConfig, false),
               ConfigOnce(config, attempt.call, s))
  {
    s := Perform(m, t, p, attempt.call, snapshot);
  }

  lemma OneMoreAttempt(attempts: seq<Attempt>, i: nat, a: Attempt)
    requires i < |attempts|
    ensures a in attempts[..i + 1] <==> a in attempts[..i] || a == attempts[i]
  {
    assert attempts[..i + 1] == attempts[..i] + [attempts[i]];
  }

  /** How a transaction stands as long as no publication has failed. */
  ghost predicate Healthy(t: InstallTransaction, p: Plan, m: Machine)
    reads t, m
  {
    t.machine == m && t.plan == p && t.Valid() && (t.finished ==> m.committed) &&
    (!t.finished && t.journal.state == TransactionState.Published ==> AllReplaced(p, m.files))
  }

  /** The preimage of the configuration is on disk, or no longer needed. */
  ghost predicate Recorded(t: InstallTransaction, m: Machine)
    reads t, m
  {
    m.committed ||
    (!t.finished && t.journal.state != Prepared && m.journal.Some? && m.journal.value.configMutationPlanned)
  }

  method Perform(m: Machine, t: InstallTransaction, ghost p: Plan, call: Call, snapshot: ConfigSnapshot)
    returns (s: Status)
    requires t.machine == m && t.plan == p && t.Valid() && snapshot == Capture(p.begun, p.configPath)
    requires call.WriteConfig? ==> Recorded(t, m)
    modifies m, t
    ensures t.machine == m && t.plan == p
    ensures t.Valid() <==> (m.committed ==> Updated(p, m.files))
    ensures !call.Commit? || s.Threw? || old(Healthy(t, p, m)) ==> t.Valid()
    ensures old(Healthy(t, p, m)) && (s.Done? || (s.Threw? && !call.Publish?)) ==> Healthy(t, p, m)
    ensures old(Recorded(t, m)) && !s.PoweredOff? ==> Recorded(t, m)
    ensures call.RecordConfig? && s.Done? ==> Recorded(t, m)
    ensures call.Commit? && s.Done? ==> t.finished
    ensures !call.Commit? || s.Threw? ==> m.committed == old(m.committed)
    ensures old(Tidy(p, m)) ==> Tidy(p, m)
    ensures old(Smooth(t, p, m, !call.Publish?)) ==> GoesWell(t, p, m, call, s)
    ensures s.Done? || !call.Publish? ==>
      ConfigAt(m.files, p.configPath) == ConfigOnce(old(ConfigAt(m.files, p.configPath)), call, s)
  {
    match call {
      case Publish =>
        s := PublishAttempt(m, t, p);
      case RecordConfig =>
        s := RecordAttempt(m, t, p, snapshot);
      case WriteConfig(bytes) =>
        s := WriteAttempt(m, t, p, bytes);
      case Commit =>
        s := CommitAttempt(m, t, p);
    }
  }

  method PublishAttempt(m: Machine, t: InstallTransaction, ghost p: Plan) returns (s: Status)
    requires t.machine == m && t.plan == p && t.Valid()
    modifies m, t
    ensures t.machine == m && t.plan == p && t.Valid() && m.committed == old(m.committed)
    ensures s.Done? ==> ConfigAt(m.files, p.configPath) == old(ConfigAt(m.files, p.configPath))
    ensures old(Tidy(p, m)) ==> Tidy(p, m)
    ensures old(Smooth(t, p, m, false)) ==> s.Done? && Smooth(t, p, m, true)
    ensures old(Healthy(t, p, m)) && s.Done? ==> Healthy(t, p, m)
    ensures old(Recorded(t, m)) && !s.PoweredOff? ==> Recorded(t, m)
  {
    s := t.Publish();
  }

  method RecordAttempt(m: Machine, t: InstallTransaction, ghost p: Plan, snapshot: ConfigSnapshot) returns (s: Status)
    requires t.machine == m && t.plan == p && t.Valid() && snapshot == Capture(p.begun, p.configPath)
    modifies m, t
    ensures t.machine == m && t.plan == p && t.Valid() && m.committed == old(m.committed)
    ensures ConfigAt(m.files, p.configPath) == old(ConfigAt(m.files, p.configPath))
    ensures old(Tidy(p, m)) ==> Tidy(p, m)
    ensures old(Smooth(t, p, m, true)) ==> s.Done? && Smooth(t, p, m, true)
    ensures old(Healthy(t, p, m)) && !s.PoweredOff? ==> Healthy(t, p, m)
    ensures (old(Recorded(t, m)) && !s.PoweredOff?) || s.Done? ==> Recorded(t, m)
  {
    s := t.RecordRuntimeConfigurationMutation(snapshot);
  }

  method WriteAttempt(m: Machine, t: InstallTransaction, ghost p: Plan, bytes: seq<bv8>) returns (s: Status)
    requires t.machine == m && t.plan == p && t.Valid() && Recorded(t, m)
    modifies m`files, m`faults
    ensures t.Valid() && Recorded(t, m)
    ensures old(Tidy(p, m)) ==> Tidy(p, m)
    ensures old(Smooth(t, p, m, true)) ==> s.Done? && Smooth(t, p, m, true)
    ensures old(Healthy(t, p, m)) ==> Healthy(t, p, m)
    ensures ConfigAt(m.files, p.configPath) ==
            if s.Done? then Some(File(bytes)) else ConfigAt(old(m.files), p.configPath)
  {
    s := WriteConfiguration(m, p, bytes);
  }

  /** A commit of what has been published, or of whatever is there. */
  method CommitAttempt(m: Machine, t: InstallTransaction, ghost p: Plan) returns (s: Status)
    requires t.machine == m && t.plan == p && t.Valid()
    modifies m, t
    ensures t.machine == m && t.plan == p
    ensures t.Valid() <==> (m.committed ==> Updated(p, m.files))
    ensures s.Threw? || old(Healthy(t, p, m)) ==> t.Valid()
    ensures old(Healthy(t, p, m)) && !s.PoweredOff? ==> Healthy(t, p, m)
    ensures old(Recorded(t, m)) && !s.PoweredOff? ==> Recorded(t, m)
    ensures s.Done? ==> t.finished && m.committed
    ensures s.Threw? ==> m.committed == old(m.committed)
    ensures old(Tidy(p, m)) ==> Tidy(p, m)
    ensures old(Smooth(t, p, m, true)) ==> s.Done? && m.journal == None
    ensures ConfigAt(m.files, p.configPath) == old(ConfigAt(m.files, p.configPath))
  {
    ghost var published := AllReplaced(p, m.files);
    assert published ==> Updated(p, m.files);
    s := t.Commit();
  }

  method WriteConfiguration(m: Machine, ghost p: Plan, bytes: seq<bv8>) returns (s: Status)
    requires Sensible(p) && Safe(p, m) && m.configPath == p.configPath
    requires m.committed || (m.journal.Some? && m.journal.value.configMutationPlanned &&
                             m.journal.value.state in {Prepared, TransactionState.Published})
    modifies m`files, m`faults
    ensures Safe(p, m)
    ensures ConfigAt(m.files, p.configPath) ==
            if s.Done? then Some(File(bytes)) else ConfigAt(old(m.files), p.configPath)
    ensures forall i | 0 <= i < |p.Entries()| ::
      ViewOf(m.files, p.Entries()[i]) == ViewOf(old(m.files), p.Entries()[i])
    ensures Subtree(m.files, p.journal.workRoot) == Subtree(old(m.files), p.journal.workRoot)
    ensures Faultless(old(m.faults)) && !ParentsBlocked(old(m.files), p.configPath) ==>
      s.Done? && Faultless(m.faults) && !ParentsBlocked(m.files, p.configPath)
  {
    s := m.WriteFile(m.configPath, bytes);
    ConfigStepKeepsRest(p, old(m.files), m.files);
    ApartFromTemporaries(p.configPath, p.journal.workRoot);
    WrittenKeepsSubtree(old(m.files), m.files, p.configPath, p.journal.workRoot);
    if s.Done? && !ParentsBlocked(old(m.files), p.configPath) { WriteLeavesWay(old(m.files), m.files, p.configPath); }
  }

  lemma WriteLeavesWay(fs: FileSystem, after: FileSystem, path: Path)
    requires Local(fs, after, path, path) && !ParentsBlocked(fs, path)
    ensures !ParentsBlocked(after, path)
  {
    forall n | 1 <= n < |path| ensures !(path <= path[..n]) { }
  }

  /** The installation is started again and again; each start recovers first, and may itself be cut
      short anywhere. */
  method Restarts(m: Machine, root: Path, ghost plan: Plan, boots: seq<seq<Fault>>) returns (s: Status)
    requires |root| > 1 && OwnPlan(plan, root, m.scopeId) && m.configPath == plan.configPath
    requires Safe(plan, m) && boots != []
    modifies m
    ensures Safe(plan, m) && m.committed == old(m.committed)
    ensures s.Done? ==> m.journal == None
    ensures old(Tidy(plan, m)) ==> Tidy(plan, m)
    ensures old(m.journal) == None ==> s.Done? && m.files == old(m.files)
    ensures m.committed ==> ConfigAt(m.files, plan.configPath) == ConfigAt(old(m.files), plan.configPath)
    ensures Faultless(boots[|boots| - 1]) && |plan.Entries()| <= MAXIMUM_ENTRIES ==> s.Done?
    ensures |plan.Entries()| > MAXIMUM_ENTRIES && old(m.journal).Some? ==>
      s == Threw(InvalidEntryCount) && m.files == old(m.files) && m.journal == old(m.journal)
  {
    s := Done;
    for i := 0 to |boots|
      invariant Safe(plan, m) && m.committed == old(m.committed)
      invariant i > 0 && s.Done? ==> m.journal == None
      invariant old(Tidy(plan, m)) ==> Tidy(plan, m)
      invariant old(m.journal) == None ==> s.Done? && m.journal == None && m.files == old(m.files)
      invariant m.committed ==> ConfigAt(m.files, plan.configPath) == ConfigAt(old(m.files), plan.configPath)
      invariant i > 0 && Faultless(boots[i - 1]) && |plan.Entries()| <= MAXIMUM_ENTRIES ==> s.Done?
      invariant |plan.Entries()| > MAXIMUM_ENTRIES && old(m.journal).Some? ==>
        m.journal == old(m.journal) && m.files == old(m.files) && (i > 0 ==> s == Threw(InvalidEntryCount))
    {
      m.faults := boots[i];
      s := Recover(m, root, plan);
    }
  }

  /** All or nothing. Whatever calls were made, wherever any of them and any number of recoveries
      failed or lost power: once a recovery has completed, every destination holds its prepared
      contents, and the configuration what was last written to it, if the journal had reached Committed,
      and otherwise they all hold exactly what they held before; nothing else on the disk has changed. A last
      start that meets no fault does complete, unless the transaction was larger than recovery admits. */
  method AllOrNothing(m: Machine, root: Path, id: nat, requests: seq<PublishEntry>, attempts: seq<Attempt>,
                      boots: seq<seq<Fault>>)
    returns (s: Status, ghost plan: Plan, ghost outcomes: seq<Status>)
    requires |root| > 1 && m.journal == None && boots != []
    requires RecordsBeforeWriting(attempts) && CommitsWhatItPublished(attempts)
    requires Beginnable(m.files, m.configPath, root, m.scopeId, id, requests)
    requires requests != [] && Acceptable(m.files, root, requests)
    modifies m
    ensures plan == PlanFor(old(m.files), m.configPath, root, m.scopeId, id, requests)
    ensures s.Done? ==> m.journal == None && WellFormed(m.files) && RestKept(plan, m.files)
    ensures s.Done? && m.committed ==> forall i | 0 <= i < |requests| ::
      Subtree(m.files, requests[i].destination) == Subtree(old(m.files), requests[i].prepared)
    ensures s.Done? && !m.committed ==> forall i | 0 <= i < |requests| ::
      Subtree(m.files, requests[i].destination) == Subtree(old(m.files), requests[i].destination)
    ensures Performed(attempts, outcomes)
    ensures m.committed ==> LastIsCommit(attempts, outcomes)
    ensures s.Done? && m.committed ==>
      ConfigAt(m.files, m.configPath) == ConfigAfter(ConfigAt(old(m.files), m.configPath), attempts, outcomes)
    ensures s.Done? && !m.committed ==> ConfigAt(m.files, m.configPath) == ConfigAt(old(m.files), m.configPath)
    ensures s.Done? && outcomes != [] ==> Subtree(m.files, WorkRoot(root, m.scopeId, id)) == NOTHING
    ensures Faultless(boots[|boots| - 1]) && |requests| <= MAXIMUM_ENTRIES ==> s.Done?
    ensures Faultless(old(m.faults)) && Orderly(attempts) &&
            Unblocked(old(m.files), m.configPath, WorkRoot(root, m.scopeId, id), requests) ==>
              s.Done? && m.committed
  {
    s, plan, outcomes := Session(m, root, id, requests, attempts);
    s := Restarts(m, root, plan, boots);
    forall i | 0 <= i < |requests|
      ensures plan.Entries()[i].destination == requests[i].destination
      ensures Was(plan, i).destination == Subtree(old(m.files), requests[i].destination)
      ensures Was(plan, i).prepared == Subtree(old(m.files), requests[i].prepared)
    {
    }
  }

  /** `Begin` accepts any number of entries, validation at most 64: a larger transaction that is cut short while it
      publishes, wherever that is, or when it has published, can never be recovered, however often and however
      faultlessly the installation is started, while one of at most 64 entries always can. */
  method OversizedTransactionIsStuck(m: Machine, root: Path, id: nat, requests: seq<PublishEntry>,
                                     faults: seq<Fault>, boots: seq<seq<Fault>>)
    returns (published: Status, s: Status, ghost plan: Plan)
    requires |root| > 1 && m.journal == None && boots != [] && Faultless(boots[|boots| - 1])
    requires Beginnable(m.files, m.configPath, root, m.scopeId, id, requests)
    requires requests != [] && Acceptable(m.files, root, requests)
    requires !ParentsBlocked(m.files, WorkRoot(root, m.scopeId, id) + ["backup", "0000"])
    modifies m
    ensures plan == PlanFor(old(m.files), m.configPath, root, m.scopeId, id, requests)
    ensures s.Done? <==> |requests| <= 64
    ensures !s.Done? ==> s == Threw(InvalidEntryCount) && m.journal.Some?
    ensures !s.Done? && published.Done? ==> AllReplaced(plan, m.files)
    ensures Faultless(faults) && Unblocked(old(m.files), m.configPath, WorkRoot(root, m.scopeId, id), requests) ==>
      published.Done?
  {
    m.faults := [];
    var t: InstallTransaction?;
    s, t, plan := InstallTransaction.Begin(m, root, id, requests);
    m.faults := faults;
    published := t.Publish();
    s := Restarts(m, root, plan, boots);
  }
}
