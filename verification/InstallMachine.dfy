/** The disk as one installation sees it, and what may go wrong with each single operation on it. */
module InstallMachine {
  import opened Basics
  import opened FileTree
  import opened InstallJournal

  /** What happens to the next operation: it works, it throws, or the power goes. */
  datatype Fault = Fine | Throws(debris: Debris) | PowerLoss(debris: Debris)

  /** What an operation leaves that does not finish: a deletion of a tree the nodes in `kept`, a write its
      temporary, with whatever had got into it, a creation of directories the first few of them. */
  datatype Debris = Debris(kept: set<Path>, temporary: Option<(string, seq<bv8>)>, parents: nat)

  datatype Status = Done | Threw(reason: Refusal) | PoweredOff

  predicate Faultless(faults: seq<Fault>) {
    forall f | f in faults :: f.Fine?
  }

  ghost function Next(faults: seq<Fault>): Fault {
    if faults == [] then Fine else faults[0]
  }

  ghost function Later(faults: seq<Fault>): seq<Fault> {
    if faults == [] then [] else faults[1..]
  }

  /** How an operation ends that meets this fault. */
  ghost function Failed(f: Fault): Status
    requires !f.Fine?
  {
    if f.Throws? then Threw(DeviceFailed) else PoweredOff
  }

  /** A deletion that meets this fault leaves any part of the tree, whichever it says. */
  ghost predicate DeletesUpTo(f: Fault, before: FileSystem, after: FileSystem, path: Path, s: Status) {
    !f.Fine? ==> after == Prune(before, path, f.debris.kept) && s == Failed(f)
  }

  /** A write that meets this fault leaves its temporary, if it had got so far and the name was not taken. */
  ghost predicate LeavesDebris(f: Fault, before: FileSystem, after: FileSystem, path: Path, s: Status)
    requires path != []
  {
    !f.Fine? ==> after == WithTemporary(before, path, f.debris) && s == Failed(f)
  }

  function WithTemporary(files: FileSystem, path: Path, debris: Debris): FileSystem
    requires path != []
  {
    if debris.temporary.None? || !OpenWay(files, path) || Temporary(path, debris.temporary.value.0) in files then files
    else files[Temporary(path, debris.temporary.value.0) := File(debris.temporary.value.1)]
  }

  lemma TemporaryLitters(files: FileSystem, path: Path, debris: Debris)
    requires WellFormed(files) && path != []
    ensures WellFormed(WithTemporary(files, path, debris)) && Littered(files, WithTemporary(files, path, debris), path)
  {
    if debris.temporary.Some? && OpenWay(files, path) {
      var (suffix, bytes) := debris.temporary.value;
      var t := Temporary(path, suffix);
      TemporaryIsOne(path, suffix);
      if t !in files { TemporaryKeepsWellFormed(files, path, t, bytes); }
    }
  }

  /** A creation of directories that meets this fault makes the topmost of them, as many as it says. */
  ghost predicate MakesUpTo(f: Fault, before: FileSystem, after: FileSystem, path: Path, s: Status) {
    s == (if !f.Fine? then Failed(f) else if ParentsBlocked(before, path) then Threw(SystemRefused) else Done) &&
    (!f.Fine? && !ParentsBlocked(before, path) && f.debris.parents <= |path| ==>
       after == MakeParentsUpTo(before, path, f.debris.parents))
  }

  class Machine {
    const configPath: Path
    const scopeId: string
    var files: FileSystem
    var journal: Option<Journal>
    var faults: seq<Fault>
    /** Whether the journal of the transaction at hand ever said Committed. */
    ghost var committed: bool

    constructor (files: FileSystem, configPath: Path, scopeId: string, faults: seq<Fault>)
      ensures this.files == files && journal == None && this.faults == faults && !committed
      ensures this.configPath == configPath && this.scopeId == scopeId
    {
      this.files, this.journal, this.faults, this.committed := files, None, faults, false;
      this.configPath, this.scopeId := configPath, scopeId;
    }

    method NextFault() returns (f: Fault)
      modifies this`faults
      ensures Faultless(old(faults)) ==> f.Fine? && Faultless(faults)
      ensures f == Next(old(faults)) && faults == Later(old(faults))
    {
      if faults == [] { return Fine; }
      f, faults := faults[0], faults[1..];
      assert f in old(faults);
    }

    /** `Directory.CreateDirectory`, given the path of something to be put inside: from the top down, and cut
        short anywhere. */
    method CreateParents(path: Path) returns (s: Status)
      requires WellFormed(files)
      modifies this`files, this`faults
      ensures exists k | 0 <= k <= |path| :: files == MakeParentsUpTo(old(files), path, k)
      ensures WellFormed(files) && SomeParents(old(files), files, path)
      ensures s.Done? ==> files == MakeParents(old(files), path) && OpenWay(files, path)
      ensures Faultless(old(faults)) ==>
        Faultless(faults) && s == if ParentsBlocked(old(files), path) then Threw(SystemRefused) else Done
      ensures s.Threw? ==> s.reason in {DeviceFailed, SystemRefused}
      ensures MakesUpTo(Next(old(faults)), old(files), files, path, s) && faults == Later(old(faults))
    {
      var f := NextFault();
      var blocked := ParentsBlocked(files, path);
      var k := if blocked then 0 else if f.Fine? || f.debris.parents > |path| then |path| else f.debris.parents;
      assert files == MakeParentsUpTo(files, path, 0);
      if !blocked {
        UpToIsSomeParents(files, path, k);
        MakeParentsKeepsWellFormed(files, path);
        assert path[..|path|] == path;
        files := MakeParentsUpTo(files, path, k);
      }
      return if f.PowerLoss? then PoweredOff
             else if f.Throws? then Threw(DeviceFailed)
             else if blocked then Threw(SystemRefused) else Done;
    }

    /** The same-volume rename of a file or directory, which overwrites nothing. */
    method Move(source: Path, target: Path, kind: Kind) returns (s: Status)
      requires WellFormed(files) && source != [] && target != [] && !Overlap(source, target)
      modifies this`files, this`faults
      ensures WellFormed(files) && Local(old(files), files, source, target)
      ensures s.Done? ==> Exists(old(files), source, kind) && Subtree(old(files), target) == NOTHING
      ensures s.Done? ==> Subtree(files, target) == Subtree(old(files), source)
      ensures s.Done? ==> Subtree(files, source) == NOTHING
      ensures !s.Done? ==> Subtree(files, target) == Subtree(old(files), target)
      ensures !s.Done? ==> Subtree(files, source) == Subtree(old(files), source)
      ensures Faultless(old(faults)) ==> Faultless(faults) && !s.PoweredOff?
      ensures Faultless(old(faults)) && s.Threw? ==>
        ParentsBlocked(old(files), target) || !Exists(old(files), source, kind) || target in old(files)
      ensures s.Threw? ==> s.reason in {DeviceFailed, SystemRefused}
    {
      RootOfSubtree(files, source);
      RootOfSubtree(files, target);
      s := CreateParents(target);
      ParentsEffect(old(files), files, target, source);
      if !s.Done? { return; }
      RootOfSubtree(files, source);
      RootOfSubtree(files, target);
      var f := NextFault();
      if f.PowerLoss? { return PoweredOff; }
      if f.Throws? { return Threw(DeviceFailed); }
      if !Exists(files, source, kind) || target in files { return Threw(SystemRefused); }
      NothingBelowAMissingNode(files, target);
      RenameEffect(files, source, target);
      RenameKeepsWellFormed(files, source, target);
      files := Rename(files, source, target);
      return Done;
    }

    /** `DeleteDirectoryIfExists`: not atomic, the directory itself goes last. */
    method DeleteDirectory(path: Path) returns (s: Status)
      requires WellFormed(files) && path != []
      requires path in files ==> files[path].Dir?
      modifies this`files, this`faults
      ensures WellFormed(files) && Local(old(files), files, path, path)
      ensures s.Done? ==> Subtree(files, path) == NOTHING
      ensures !s.Done? ==> path in files && files[path].Dir?
      ensures Faultless(old(faults)) ==> Faultless(faults) && s.Done?
      ensures s.Threw? ==> s.reason == DeviceFailed
      ensures path in old(files) ==> DeletesUpTo(Next(old(faults)), old(files), files, path, s)
    {
      if !Exists(files, path, Directory) {
        NothingBelowAMissingNode(files, path);
        return Done;
      }
      var f := NextFault();
      if !f.Fine? {
        PruneEffect(files, path, f.debris.kept);
        PruneKeepsWellFormed(files, path, f.debris.kept);
        files := Prune(files, path, f.debris.kept);
        return if f.Throws? then Threw(DeviceFailed) else PoweredOff;
      }
      RemoveEffect(files, path);
      RemoveKeepsWellFormed(files, path);
      files := Remove(files, path);
      return Done;
    }

    /** `File.Delete`, which is content with a missing file. */
    method DeleteFile(path: Path) returns (s: Status)
      requires WellFormed(files) && path != []
      requires path in files ==> files[path].File?
      modifies this`files, this`faults
      ensures WellFormed(files) && Local(old(files), files, path, path)
      ensures s.Done? ==> Subtree(files, path) == NOTHING
      ensures !s.Done? ==> files == old(files)
      ensures Faultless(old(faults)) ==> Faultless(faults) && s.Done?
      ensures s.Threw? ==> s.reason == DeviceFailed
      ensures !Next(old(faults)).Fine? ==> s == Failed(Next(old(faults)))
    {
      var f := NextFault();
      if f.PowerLoss? { return PoweredOff; }
      if f.Throws? { return Threw(DeviceFailed); }
      RemoveEffect(files, path);
      RemoveKeepsWellFormed(files, path);
      files := Remove(files, path);
      return Done;
    }

    /** The temporary of a write that did not finish; its random name is not taken. */
    method LeaveTemporary(path: Path, debris: Debris)
      requires WellFormed(files) && path != []
      modifies this`files
      ensures WellFormed(files) && Littered(old(files), files, path)
      ensures files == WithTemporary(old(files), path, debris)
    {
      TemporaryLitters(files, path, debris);
      files := WithTemporary(files, path, debris);
    }

    /** `WriteAtomic`: a reader sees the old contents or the new ones. Interrupted, it may leave its
        temporary beside the file. */
    method WriteFile(path: Path, bytes: seq<bv8>) returns (s: Status)
      requires WellFormed(files) && path != []
      requires path in files ==> files[path].File?
      modifies this`files, this`faults
      ensures WellFormed(files) && Written(old(files), files, path)
      ensures s.Done? ==> Local(old(files), files, path, path) && path in files && files[path] == File(bytes)
      ensures !s.Done? ==> (path in files <==> path in old(files))
      ensures !s.Done? && path in files ==> files[path] == old(files)[path]
      ensures Faultless(old(faults)) ==> Faultless(faults) && !s.PoweredOff?
      ensures Faultless(old(faults)) && s.Threw? ==> ParentsBlocked(old(files), path)
      ensures s.Threw? ==> s.reason in {DeviceFailed, SystemRefused}
      ensures !Next(old(faults)).Fine? ==> s == Failed(Next(old(faults)))
      ensures Next(old(faults)).Fine? && !ParentsBlocked(old(files), path) ==>
        LeavesDebris(Next(Later(old(faults))), MakeParents(old(files), path), files, path, s)
    {
      s := CreateParents(path);
      ParentsOnlyAbove(old(files), files, path);
      if !s.Done? { return; }
      var f := NextFault();
      if !f.Fine? {
        LeaveTemporary(path, f.debris);
        return if f.Throws? then Threw(DeviceFailed) else PoweredOff;
      }
      WriteKeepsWellFormed(files, path, bytes);
      files := files[path := File(bytes)];
      return Done;
    }

    /** `JsonState.Write`: the journal on disk is the old one or the new one; an unfinished write may leave
        its temporary beside it. */
    method WriteJournal(j: Journal) returns (s: Status)
      requires WellFormed(files) && |j.installRoot| > 1
      modifies this`files, this`journal, this`faults, this`committed
      ensures journal == if s.Done? then Some(j) else old(journal)
      ensures committed == (old(committed) || (s.Done? && j.state == Committed))
      ensures WellFormed(files) && Littered(old(files), files, JournalPath(j.installRoot, scopeId))
      ensures s.Done? ==> files == old(files)
      ensures Faultless(old(faults)) ==> Faultless(faults) && s.Done?
      ensures s.Threw? ==> s.reason == DeviceFailed
      ensures LeavesDebris(Next(old(faults)), old(files), files, JournalPath(j.installRoot, scopeId), s)
    {
      var f := NextFault();
      if !f.Fine? {
        LeaveTemporary(JournalPath(j.installRoot, scopeId), f.debris);
        return if f.Throws? then Threw(DeviceFailed) else PoweredOff;
      }
      journal := Some(j);
      committed := committed || j.state == Committed;
      return Done;
    }

    method DeleteJournal() returns (s: Status)
      modifies this`journal, this`faults
      ensures journal == if s.Done? then None else old(journal)
      ensures Faultless(old(faults)) ==> Faultless(faults) && s.Done?
      ensures s.Threw? ==> s.reason == DeviceFailed
      ensures !Next(old(faults)).Fine? ==> s == Failed(Next(old(faults)))
    {
      var f := NextFault();
      if f.PowerLoss? { return PoweredOff; }
      if f.Throws? { return Threw(DeviceFailed); }
      journal := None;
      return Done;
    }
  }
}
