/** The reconciliation of installed products with the toolkit, the game inputs and Retro Rewind. */
module Reconciliation {
  import opened Basics
  import opened Inspection

  datatype Request = Request(inputs: Option<CompileInputs>, mode: PayloadMode, canonicalRoot: Option<FileHash>,
                             expectedDol: Text, expectedRel: Text, snapshot: Option<Payload>)

  /** What the two entry points pass on. A snapshot was downloaded, or recovered, exactly for an online
      request; it has contents. */
  predicate Admitted(r: Request) {
    (r.inputs.None? <==> r.mode.NotApplicable?) && (r.snapshot.Some? <==> r.mode.Online?) &&
    (r.snapshot.Some? ==> r.snapshot.value.length > 0)
  }

  datatype Decision = Decision(rebuildBase: bool, rebuildRetro: bool, syncPayload: bool,
                               syncBaseAssets: bool, syncRetroAssets: bool, rootChanged: bool)

  predicate NothingToDo(c: Decision) {
    !c.rebuildBase && !c.rebuildRetro && !c.syncPayload && !c.syncBaseAssets && !c.syncRetroAssets && !c.rootChanged
  }

  datatype PayloadAction = NoAction | PublishCacheOnly | RebuildRetro

  predicate RequiresCompilation(status: Status) {
    status.ToolkitChanged? || status.CodePulChanged? || status.CompileInputsChanged? || status.InputsMissing? ||
    status.Blocked? || status.Broken?
  }

  function PlanPayload(productMatches: bool, cacheMatches: bool): PayloadAction {
    if !productMatches then RebuildRetro else if cacheMatches then NoAction else PublishCacheOnly
  }

  predicate ExpectsInputs(r: Request) {
    r.expectedDol.Text? && r.expectedRel.Text?
  }

  predicate BaseDrifts(d: Disk, r: Request) {
    ExpectsInputs(r) && d.base.exe.Some? && !ProductUsesGameInputs(d.base, r.expectedDol, r.expectedRel)
  }

  predicate RetroDrifts(d: Disk, r: Request) {
    ExpectsInputs(r) && d.retro.exe.Some? && !ProductUsesGameInputs(d.retro, r.expectedDol, r.expectedRel)
  }

  function CacheObserved(d: Disk, r: Request): Option<bool> {
    if r.snapshot.None? then None else Some(CachedPayloadMatches(d, r.snapshot.value))
  }

  function PayloadActionFor(d: Disk, r: Request): PayloadAction {
    if r.snapshot.None? then NoAction
    else PlanPayload(MatchesPayloadSnapshot(d, r.snapshot.value), CachedPayloadMatches(d, r.snapshot.value))
  }

  /** A base-only operation leaves the recorded root alone. */
  function CanonicalRoot(r: Request): Option<FileHash> {
    if r.inputs.None? then None else r.canonicalRoot
  }

  predicate RecordedRootMatches(d: Disk, root: Text) {
    d.configuredRoot.Some? && d.state.Some? && d.state.value.retroRoot.Text? &&
    Same(d.configuredRoot.value, root) && Same(d.state.value.retroRoot, root)
  }

  predicate RootChanged(d: Disk, r: Request) {
    CanonicalRoot(r).Some? && !RecordedRootMatches(d, CanonicalRoot(r).value)
  }

  function RetroStatus(d: Disk, r: Request): Status {
    CheckRetroRewindCore(d, ResolveToolkitFingerprint(d), r.inputs, false, CacheObserved(d, r))
  }

  predicate ModeChanges(d: Disk, r: Request) {
    HasRetroProduct(d) && !ResolvePayloadMode(d).NotApplicable? && ResolvePayloadMode(d) != r.mode
  }

  /** What forbids any reconciliation before anything is built. */
  predicate Refuses(d: Disk, r: Request) {
    !d.present || !d.hasToolkit || r.expectedDol.Blank? != r.expectedRel.Blank? ||
    ResolveToolkitFingerprint(d).Blank? || (r.inputs.Some? && r.canonicalRoot.None?) ||
    (r.inputs.None? && (RetroDrifts(d, r) || ActionRequired(RetroStatus(d, r))))
  }

  function Rebuilds(d: Disk, r: Request): (bool, bool) {
    (RequiresCompilation(CheckBaseCore(d, ResolveToolkitFingerprint(d))) || BaseDrifts(d, r),
     r.inputs.Some? && (RetroDrifts(d, r) || RequiresCompilation(RetroStatus(d, r)) || RetroStatus(d, r).Absent? ||
                        PayloadActionFor(d, r).RebuildRetro? || ModeChanges(d, r)))
  }

  /** The last word on the payload: a change of mode decides it, otherwise any reason to publish it, and an
      online rebuild always does. */
  predicate SyncsPayload(d: Disk, r: Request) {
    r.inputs.Some? &&
    ((Rebuilds(d, r).1 && r.mode.Online?) ||
     (if ModeChanges(d, r) then r.mode.Online?
      else RetroStatus(d, r).PayloadChanged? || !PayloadActionFor(d, r).NoAction?))
  }

  function Decide(d: Disk, r: Request): Decision {
    var toolkit, rebuilds := ResolveToolkitFingerprint(d), Rebuilds(d, r);
    Decision(rebuilds.0, rebuilds.1, SyncsPayload(d, r),
             !rebuilds.0 && d.base.exe.Some? && !AssetsValid(d, d.base, toolkit),
             !rebuilds.1 && d.retro.exe.Some? && !AssetsValid(d, d.retro, toolkit),
             RootChanged(d, r))
  }

  // ---------------------------------------------------------------------------------------- building

  /** The game inputs a build is made from: the release's, or the recorded ones. */
  function BuildInputs(d: Disk, r: Request): (Text, Text) {
    if r.expectedDol.Text? || r.expectedRel.Text? then (r.expectedDol, r.expectedRel)
    else if d.state.Some? && d.state.value.schema == 1 then (d.state.value.dol, d.state.value.rel)
    else (Blank, Blank)
  }

  /** The toolkit is what its record says, and the installed game files are those inputs. */
  predicate CanBuild(d: Disk, r: Request) {
    var inputs := BuildInputs(d, r);
    d.computedToolkit == ResolveToolkitFingerprint(d) && inputs.0.Text? && inputs.1.Text? &&
    d.game.dol.Some? && Same(d.game.dol.value, inputs.0) && d.game.rel.Some? && Same(d.game.rel.value, inputs.1)
  }

  /** A workspace copy that already matches is kept, any other is replaced by the installed file. */
  function Refreshed(workspace: Option<FileHash>, installed: FileHash, expected: Text): FileHash {
    if workspace.Some? && Same(workspace.value, expected) then workspace.value else installed
  }

  function Translated(d: Disk, r: Request): (FileHash, FileHash)
    requires CanBuild(d, r)
  {
    var inputs := BuildInputs(d, r);
    (Refreshed(d.workspaceDol, d.game.dol.value, inputs.0), Refreshed(d.workspaceRel, d.game.rel.value, inputs.1))
  }

  /** What a build emits: usable executables with the given hashes, local provenance of what it was given, and
      copies of the workspace's support files. */
  datatype Built = Built(base: FileHash, retro: FileHash)

  function BaseProduct(d: Disk, r: Request, built: Built): Product
    requires CanBuild(d, r)
  {
    var hashes := Translated(d, r);
    Product(Some(Executable(built.base, true)),
            Some(Fingerprint(BaseProfile, ResolveToolkitFingerprint(d), hashes.0, hashes.1, built.base,
                             Blank, Blank, Empty, Blank, 0)),
            Some(LocalBuild(BaseProfile, hashes.0, hashes.1, None, None, None)), d.workspaceAssets)
  }

  function RetroProduct(d: Disk, r: Request, built: Built): Product
    requires CanBuild(d, r) && Admitted(r) && r.inputs.Some?
  {
    var hashes := Translated(d, r);
    var mode: Mode := if r.mode.Online? then Downloaded else Skipped;
    var sha: Text := if r.snapshot.Some? then r.snapshot.value.sha else Blank;
    var length := if r.snapshot.Some? then r.snapshot.value.length else 0;
    Product(Some(Executable(built.retro, true)),
            Some(Fingerprint(RetroProfile, ResolveToolkitFingerprint(d), hashes.0, hashes.1, built.retro,
                             r.inputs.value.codePul, r.inputs.value.inputs, mode, sha, length)),
            Some(LocalBuild(RetroProfile, hashes.0, hashes.1, Some(mode),
                            if r.mode.Online? then Some(sha) else None, if r.mode.Online? then Some(length) else None)),
            d.workspaceAssets)
  }

  // -------------------------------------------------------------------------------------- publishing

  /** Copies of the support files are published only while the workspace has what the toolkit's record names. */
  predicate AssetsAuthentic(d: Disk) {
    d.toolkit.Some? && d.toolkit.value.assets.Text? && d.workspaceAssets == Some(d.toolkit.value.assets)
  }

  function RecordedOr(value: Text, otherwise: Text): Text {
    if value.Text? then value else otherwise
  }

  const NEW_STATE := InstallState(1, Blank, Blank, Blank, false, Blank, Blank, Blank, Empty, Blank, 0)

  function UpdatedState(d: Disk, r: Request, rebuiltRetro: bool): InstallState
    requires rebuiltRetro && r.mode.Online? ==> r.snapshot.Some?
  {
    var was := if d.state.Some? then d.state.value else NEW_STATE;
    var s := was.(installDir := d.root, schema := 1,
                  dol := RecordedOr(r.expectedDol, was.dol), rel := RecordedOr(r.expectedRel, was.rel),
                  retroInstalled := r.inputs.Some? || HasRetroProduct(d),
                  codePul := if r.inputs.Some? then r.inputs.value.codePul else was.codePul,
                  compileInputs := if r.inputs.Some? then r.inputs.value.inputs else was.compileInputs,
                  retroRoot := if CanonicalRoot(r).Some? then CanonicalRoot(r).value else was.retroRoot);
    if rebuiltRetro then
      if r.mode.Online? then
        s.(mode := Downloaded, payloadSha := r.snapshot.value.sha, payloadLength := r.snapshot.value.length)
      else s.(mode := Skipped, payloadSha := Blank, payloadLength := 0)
    else if d.retro.fingerprint.Some? && Written(d.retro.fingerprint.value.mode) then
      s.(mode := d.retro.fingerprint.value.mode, payloadSha := d.retro.fingerprint.value.payloadSha,
         payloadLength := d.retro.fingerprint.value.payloadLength)
    else s
  }

  predicate Written(mode: Mode) {
    mode.Downloaded? || mode.Skipped? || (mode.Other? && !mode.white)
  }

  function WithAssets(d: Disk, product: Product, sync: bool): Product {
    if sync then product.(assets := d.workspaceAssets) else product
  }

  predicate CanPublish(d: Disk, r: Request) {
    var c := Decide(d, r);
    (c.rebuildBase || c.rebuildRetro ==> CanBuild(d, r)) &&
    (c.syncBaseAssets || c.syncRetroAssets ==> AssetsAuthentic(d))
  }

  predicate PublishesState(c: Decision, r: Request) {
    c.rebuildBase || c.rebuildRetro || CanonicalRoot(r).Some?
  }

  /** The whole new state of the installation. */
  function Published(d: Disk, r: Request, built: Built): Disk
    requires Admitted(r) && CanPublish(d, r)
  {
    var c := Decide(d, r);
    var builds := c.rebuildBase || c.rebuildRetro;
    d.(base := if c.rebuildBase then BaseProduct(d, r, built) else WithAssets(d, d.base, c.syncBaseAssets),
       retro := if c.rebuildRetro then RetroProduct(d, r, built) else WithAssets(d, d.retro, c.syncRetroAssets),
       payload := if c.syncPayload then r.snapshot
                  else if c.rebuildRetro && r.mode.SkippedMode? then None else d.payload,
       state := if PublishesState(c, r) then Some(UpdatedState(d, r, c.rebuildRetro)) else d.state,
       configuredRoot := if CanonicalRoot(r).Some? then CanonicalRoot(r) else d.configuredRoot,
       workspaceDol := if builds then Some(Translated(d, r).0) else d.workspaceDol,
       workspaceRel := if builds then Some(Translated(d, r).1) else d.workspaceRel)
  }

  datatype Outcome = Refused | Unchanged | Committed

  function Reconciled(d: Disk, r: Request, built: Built): (Outcome, Disk)
    requires Admitted(r)
  {
    if Refuses(d, r) then (Refused, d)
    else if NothingToDo(Decide(d, r)) then (Unchanged, d)
    else if !CanPublish(d, r) then (Refused, d)
    else (Committed, Published(d, r, built))
  }

  /** The payload is published only from a snapshot that was staged, and a rebuild without one is not online. */
  lemma PayloadIsStaged(d: Disk, r: Request)
    requires Admitted(r)
    ensures SyncsPayload(d, r) ==> r.mode.Online? && r.snapshot.Some?
  {
    if r.mode.SkippedMode? && RetroStatus(d, r).PayloadChanged? {
      assert d.retro.fingerprint.value.mode.Downloaded?;
      assert ModeChanges(d, r);
    }
  }
}
