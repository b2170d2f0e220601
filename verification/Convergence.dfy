/** A reconciliation that returns leaves nothing for a second one to do. */
module Convergence {
  import opened Basics
  import opened Inspection
  import opened Reconciliation

  /** A reconciliation that goes through. */
  predicate GoesThrough(d: Disk, r: Request) {
    Admitted(r) && !Refuses(d, r) && CanPublish(d, r)
  }

  /** What a rebuild needs beyond what it checks: the disc's file table in place, and support files in the
      workspace that are those the toolkit's record names. */
  predicate RebuildsAreSound(d: Disk, r: Request) {
    Decide(d, r).rebuildBase || Decide(d, r).rebuildRetro ==> d.game.fst && AssetsAuthentic(d)
  }

  // ----------------------------------------------------------------------- nothing to do means current

  /** If there is nothing to do, inspection finds both products current, and a base-only operation at worst
      finds Retro Rewind not installed. */
  lemma NothingToDoMeansCurrent(d: Disk, r: Request)
    requires Admitted(r) && !Refuses(d, r) && NothingToDo(Decide(d, r))
    ensures var toolkit := ResolveToolkitFingerprint(d);
      CheckBase(d, toolkit).Current? &&
      var retro := CheckRetroRewind(d, toolkit, r.inputs, false, CacheObserved(d, r));
      retro.Current? || (retro.Absent? && r.inputs.None?)
  {
  }

  /** The same inspection without the operation's observation of the payload cache: it too finds Retro Rewind
      current, if and only if the length recorded for an online product is that of the payload. */
  lemma FreshInspectionAgrees(d: Disk, r: Request)
    requires Admitted(r) && !Refuses(d, r) && NothingToDo(Decide(d, r)) && r.inputs.Some?
    ensures CheckRetroRewind(d, ResolveToolkitFingerprint(d), r.inputs, false, None).Current? <==>
            (r.mode.Online? ==> d.retro.fingerprint.value.payloadLength == r.snapshot.value.length)
  {
    NothingToDoMeansCurrent(d, r);
  }

  // ------------------------------------------------------------------------------------- what is kept

  /** The game hashes that the new state records still match the installed game, and the release's. */
  lemma StateKeepsInputs(d: Disk, r: Request, rebuiltRetro: bool, fingerprint: Fingerprint)
    requires Admitted(r) && d.state.Some? && r.expectedDol.Blank? == r.expectedRel.Blank?
    requires GameInputsMatch(d.game, fingerprint, d.state.value)
    requires ExpectsInputs(r) ==> Same(fingerprint.dol, r.expectedDol) && Same(fingerprint.rel, r.expectedRel)
    requires rebuiltRetro && r.mode.Online? ==> r.snapshot.Some?
    ensures GameInputsMatch(d.game, fingerprint, UpdatedState(d, r, rebuiltRetro))
  {
  }

  /** The hashes a build is made from match the installed game and the new state. */
  lemma BuildMatchesInputs(d: Disk, r: Request, rebuiltRetro: bool, fingerprint: Fingerprint)
    requires Admitted(r) && CanBuild(d, r) && d.game.fst && r.expectedDol.Blank? == r.expectedRel.Blank?
    requires fingerprint.dol == Translated(d, r).0 && fingerprint.rel == Translated(d, r).1
    requires rebuiltRetro && r.mode.Online? ==> r.snapshot.Some?
    ensures GameInputsMatch(d.game, fingerprint, UpdatedState(d, r, rebuiltRetro))
    ensures ExpectsInputs(r) ==> Same(fingerprint.dol, r.expectedDol) && Same(fingerprint.rel, r.expectedRel)
  {
  }

  // ---------------------------------------------------------------------------------- the base product

  lemma BaseSettles(d: Disk, r: Request, built: Built)
    requires GoesThrough(d, r) && RebuildsAreSound(d, r)
    ensures var after, toolkit := Published(d, r, built), ResolveToolkitFingerprint(d);
      CheckBaseCore(after, toolkit).Current? && AssetsValid(after, after.base, toolkit) && !BaseDrifts(after, r)
  {
    var c, after := Decide(d, r), Published(d, r, built);
    if c.rebuildBase {
      BuildMatchesInputs(d, r, c.rebuildRetro, after.base.fingerprint.value);
    } else if PublishesState(c, r) {
      StateKeepsInputs(d, r, c.rebuildRetro, d.base.fingerprint.value);
    }
  }

  // -------------------------------------------------------------------------------------- Retro Rewind

  predicate RetroSettled(d: Disk, r: Request) {
    var toolkit := ResolveToolkitFingerprint(d);
    CheckRetroRewindCore(d, toolkit, r.inputs, false, CacheObserved(d, r)).Current? && !RetroDrifts(d, r) &&
    AssetsValid(d, d.retro, toolkit) && PayloadActionFor(d, r).NoAction? && !ModeChanges(d, r)
  }

  lemma RebuiltRetroSettles(d: Disk, r: Request, built: Built)
    requires GoesThrough(d, r) && RebuildsAreSound(d, r) && Decide(d, r).rebuildRetro
    ensures RetroSettled(Published(d, r, built), r)
  {
    var after := Published(d, r, built);
    PayloadIsStaged(d, r);
    BuildMatchesInputs(d, r, true, after.retro.fingerprint.value);
    assert ValidProvenance(after, after.retro, RetroProfile, after.retro.fingerprint.value, after.state.value);
  }

  lemma KeptRetroSettles(d: Disk, r: Request, built: Built)
    requires GoesThrough(d, r) && RebuildsAreSound(d, r) && r.inputs.Some? && !Decide(d, r).rebuildRetro
    ensures RetroSettled(Published(d, r, built), r)
  {
    var after := Published(d, r, built);
    PayloadIsStaged(d, r);
    StateKeepsInputs(d, r, false, d.retro.fingerprint.value);
    assert ValidProvenance(after, after.retro, RetroProfile, after.retro.fingerprint.value, after.state.value);
  }

  lemma UntouchedRetroSettles(d: Disk, r: Request, built: Built)
    requires GoesThrough(d, r) && RebuildsAreSound(d, r) && r.inputs.None?
    ensures var after := Published(d, r, built);
      !ActionRequired(RetroStatus(after, r)) && !RetroDrifts(after, r) &&
      (after.retro.exe.Some? ==> AssetsValid(after, after.retro, ResolveToolkitFingerprint(after)))
  {
    var c, after := Decide(d, r), Published(d, r, built);
    if PublishesState(c, r) {
      if d.retro.exe.Some? {
        StateKeepsInputs(d, r, false, d.retro.fingerprint.value);
        assert ValidProvenance(after, after.retro, RetroProfile, after.retro.fingerprint.value, after.state.value);
      }
    }
  }

  /** After a publication, the same reconciliation finds nothing to do, if and only if whatever was rebuilt
      was rebuilt with the disc's file table in place and from authentic support files. */
  lemma SecondRunIsNoOp(d: Disk, r: Request, built: Built)
    requires GoesThrough(d, r) && !NothingToDo(Decide(d, r))
    ensures Reconciled(Published(d, r, built), r, built).0.Unchanged? <==> RebuildsAreSound(d, r)
  {
    var after := Published(d, r, built);
    if RebuildsAreSound(d, r) {
      BaseSettles(d, r, built);
      if r.inputs.None? {
        UntouchedRetroSettles(d, r, built);
      } else if Decide(d, r).rebuildRetro {
        RebuiltRetroSettles(d, r, built);
      } else {
        KeptRetroSettles(d, r, built);
      }
    }
  }

  /** So every sound publication leaves both products current under the inspection, whatever state they were
      found in; a base-only operation may leave Retro Rewind not installed. */
  lemma PublishedIsCurrent(d: Disk, r: Request, built: Built)
    requires GoesThrough(d, r) && !NothingToDo(Decide(d, r)) && RebuildsAreSound(d, r)
    ensures var after, toolkit := Published(d, r, built), ResolveToolkitFingerprint(d);
      CheckBase(after, toolkit).Current? &&
      var retro := CheckRetroRewind(after, toolkit, r.inputs, false, CacheObserved(after, r));
      retro.Current? || (retro.Absent? && r.inputs.None?)
  {
    SecondRunIsNoOp(d, r, built);
    NothingToDoMeansCurrent(Published(d, r, built), r);
  }
}
