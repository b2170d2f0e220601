/** The reconciliation as the service performs it. */
module RepairService {
  import opened Basics
  import opened Inspection
  import opened Reconciliation
  import opened Convergence

  /** Inspection finds both products current - Retro Rewind may be missing if it was not asked for - and every
      record agrees with the request: the release's game inputs, the payload and its mode, the root. */
  predicate Settled(d: Disk, r: Request) {
    var toolkit := ResolveToolkitFingerprint(d);
    CheckBase(d, toolkit).Current? && !BaseDrifts(d, r) && !RetroDrifts(d, r) && !RootChanged(d, r) &&
    var retro := CheckRetroRewind(d, toolkit, r.inputs, false, CacheObserved(d, r));
    if r.inputs.None? then retro.Current? || retro.Absent?
    else retro.Current? && PayloadActionFor(d, r).NoAction? && !ModeChanges(d, r)
  }

  /** What the request finds there to work with: an installation and its toolkit, game inputs given together
      or not at all, and a root to go with compile inputs. */
  predicate Answerable(d: Disk, r: Request) {
    d.present && d.hasToolkit && r.expectedDol.Blank? == r.expectedRel.Blank? &&
    ResolveToolkitFingerprint(d).Text? && (r.inputs.Some? ==> r.canonicalRoot.Some?)
  }

  lemma NothingToDoExactly(d: Disk, r: Request)
    requires Admitted(r)
    ensures !Refuses(d, r) && NothingToDo(Decide(d, r)) <==> Answerable(d, r) && Settled(d, r)
  {
  }

  class ProductRepairService {
    var disk: Disk

    constructor (initial: Disk)
      ensures disk == initial
    {
      disk := initial;
    }

    /** The decision, reached step by step. */
    method Plan(r: Request) returns (refused: bool, c: Decision)
      requires Admitted(r)
      ensures refused == Refuses(disk, r)
      ensures !refused ==> c == Decide(disk, r)
    {
      c := Decision(false, false, false, false, false, false);
      if !disk.present || !disk.hasToolkit || r.expectedDol.Blank? != r.expectedRel.Blank? { return true, c; }
      var toolkit := ResolveToolkitFingerprint(disk);
      if toolkit.Blank? { return true, c; }
      var productMatches := r.snapshot.Some? && MatchesPayloadSnapshot(disk, r.snapshot.value);
      var cacheMatches := CacheObserved(disk, r);
      var action := if r.snapshot.None? then NoAction else PlanPayload(productMatches, cacheMatches == Some(true));
      if r.inputs.Some? && r.canonicalRoot.None? { return true, c; }
      var rootChanged := RootChanged(disk, r);
      var baseStatus := CheckBaseCore(disk, toolkit);
      var retroStatus := CheckRetroRewindCore(disk, toolkit, r.inputs, false, cacheMatches);
      var rebuildBase := RequiresCompilation(baseStatus) || BaseDrifts(disk, r);
      var rebuildRetro, syncPayload := false, false;
      if r.inputs.None? {
        if RetroDrifts(disk, r) || ActionRequired(retroStatus) { return true, c; }
      } else {
        rebuildRetro := RetroDrifts(disk, r) || RequiresCompilation(retroStatus) || retroStatus.Absent?;
        syncPayload := retroStatus.PayloadChanged?;
        if action.RebuildRetro? {
          rebuildRetro, syncPayload := true, true;
        } else if action.PublishCacheOnly? {
          syncPayload := true;
        }
        var installedMode := ResolvePayloadMode(disk);
        if HasRetroProduct(disk) && !installedMode.NotApplicable? && installedMode != r.mode {
          rebuildRetro := true;
          syncPayload := r.mode.Online?;
        }
        if rebuildRetro && r.mode.Online? { syncPayload := true; }
      }
      c := Decision(rebuildBase, rebuildRetro, syncPayload,
                    !rebuildBase && disk.base.exe.Some? && !AssetsValid(disk, disk.base, toolkit),
                    !rebuildRetro && disk.retro.exe.Some? && !AssetsValid(disk, disk.retro, toolkit), rootChanged);
      refused := false;
    }

    /** Refuses and changes nothing, finds everything settled and changes nothing, or publishes. What has been
        published is settled - both products current under inspection - if and only if whatever was rebuilt
        was rebuilt with the disc's file table in place and from authentic support files. */
    method Reconcile(r: Request, built: Built) returns (outcome: Outcome)
      requires Admitted(r)
      modifies this
      ensures outcome.Unchanged? <==> Answerable(old(disk), r) && Settled(old(disk), r)
      ensures outcome.Refused? <==> !(Answerable(old(disk), r) && Settled(old(disk), r)) && !GoesThrough(old(disk), r)
      ensures !outcome.Committed? ==> disk == old(disk)
      ensures outcome.Committed? ==> GoesThrough(old(disk), r) && disk == Published(old(disk), r, built)
      ensures outcome.Committed? ==> Answerable(disk, r) && (Settled(disk, r) <==> RebuildsAreSound(old(disk), r))
    {
      var refused, c := Plan(r);
      NothingToDoExactly(disk, r);
      if refused { return Refused; }
      if !c.rebuildBase && !c.rebuildRetro && !c.syncPayload && !c.syncBaseAssets && !c.syncRetroAssets &&
         !c.rootChanged { return Unchanged; }
      if (c.rebuildBase || c.rebuildRetro) && !CanBuild(disk, r) { return Refused; }
      if (c.syncBaseAssets || c.syncRetroAssets) && !AssetsAuthentic(disk) { return Refused; }
      SecondRunIsNoOp(disk, r, built);
      disk := Published(disk, r, built);
      NothingToDoExactly(disk, r);
      outcome := Committed;
    }

    /** The same request again: nothing is left to do, exactly if the first run found nothing or published
        soundly. A refusal is repeated. */
    method ReconcileTwice(r: Request, built: Built, again: Built) returns (first: Outcome, second: Outcome)
      requires Admitted(r)
      modifies this
      ensures second.Unchanged? <==> first.Unchanged? || (first.Committed? && RebuildsAreSound(old(disk), r))
      ensures first.Refused? ==> second.Refused?
      ensures first.Committed? ==>
        GoesThrough(old(disk), r) && (second.Unchanged? ==> disk == Published(old(disk), r, built))
    {
      first := Reconcile(r, built);
      second := Reconcile(r, again);
    }
  }
}
