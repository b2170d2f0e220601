/** What an installation records about its two products, and the non-mutating product inspection. */
module Inspection {
  import opened Basics

  /** A recorded text: blank, or what it reads as without regard to case, in one of its spellings. */
  datatype Text = Blank | Text(folded: nat, spelling: nat)

  /** The hash of a file is never blank. */
  type FileHash = t: Text | t.Text? witness Text(0, 0)

  /** Equality without regard to case. */
  predicate Same(left: Text, right: Text) {
    if left.Text? && right.Text? then left.folded == right.folded else left == right
  }

  datatype Profile = BaseProfile | RetroProfile | OtherProfile

  /** A recorded payload mode; `Other` is any further text, white or not. */
  datatype Mode = Downloaded | Skipped | Empty | Other(white: bool)

  datatype Fingerprint = Fingerprint(profile: Profile, toolkit: Text, dol: Text, rel: Text, exe: Text,
                                     codePul: Text, compileInputs: Text,
                                     mode: Mode, payloadSha: Text, payloadLength: int)

  datatype LocalBuild = LocalBuild(profile: Profile, dol: Text, rel: Text, mode: Option<Mode>,
                                   payloadSha: Option<Text>, payloadLength: Option<int>)

  datatype Executable = Executable(hash: FileHash, usable: bool)

  /** One product directory. Records of another schema read as absent. */
  datatype Product = Product(exe: Option<Executable>, fingerprint: Option<Fingerprint>, local: Option<LocalBuild>,
                             assets: Option<FileHash>)

  datatype InstallState = InstallState(schema: int, installDir: Text, dol: Text, rel: Text, retroInstalled: bool,
                                       codePul: Text, compileInputs: Text, retroRoot: Text,
                                       mode: Mode, payloadSha: Text, payloadLength: int)

  datatype ToolkitState = ToolkitState(fingerprint: Text, package: Text, assets: Text)

  datatype Payload = Payload(sha: FileHash, length: int)

  datatype CompileInputs = CompileInputs(codePul: FileHash, inputs: FileHash)

  datatype GameData = GameData(dol: Option<FileHash>, rel: Option<FileHash>, fst: bool)

  datatype Disk = Disk(root: FileHash, present: bool, hasToolkit: bool, toolkit: Option<ToolkitState>,
                       computedToolkit: Text, workspaceAssets: Option<FileHash>,
                       workspaceDol: Option<FileHash>, workspaceRel: Option<FileHash>,
                       base: Product, retro: Product, state: Option<InstallState>, game: GameData,
                       payload: Option<Payload>, configuredRoot: Option<Text>)

  datatype Status = Absent | Current | ToolkitChanged | CodePulChanged | CompileInputsChanged | PayloadChanged |
                    InputsMissing | Blocked | Broken

  predicate ActionRequired(status: Status) {
    !status.Current? && !status.Absent?
  }

  // ------------------------------------------------------------------------------------- what is read

  function ResolveToolkitFingerprint(d: Disk): Text {
    if d.toolkit.Some? && d.toolkit.value.fingerprint.Text? && d.toolkit.value.package.Text? && d.hasToolkit
    then d.toolkit.value.fingerprint else Blank
  }

  function ReadCurrentInstallState(d: Disk): Option<InstallState> {
    if d.state.Some? && d.state.value.schema == 1 && d.state.value.installDir.Text? &&
       Same(d.state.value.installDir, d.root) then d.state else None
  }

  predicate HasUsableToolkit(d: Disk, toolkit: Text) {
    d.hasToolkit && toolkit.Text?
  }

  predicate HasRetroProduct(d: Disk) {
    d.retro.exe.Some?
  }

  predicate UsableExecutable(product: Product) {
    product.exe.Some? && product.exe.value.usable
  }

  /** The copied support files are those the toolkit's record names. */
  predicate AssetsValid(d: Disk, product: Product, toolkit: Text) {
    d.toolkit.Some? && d.toolkit.value.fingerprint == toolkit && d.toolkit.value.assets.Text? &&
    product.assets == Some(d.toolkit.value.assets)
  }

  predicate GameInputsMatch(game: GameData, fingerprint: Fingerprint, state: InstallState) {
    game.dol.Some? && game.rel.Some? && game.fst &&
    Same(game.dol.value, fingerprint.dol) && Same(game.rel.value, fingerprint.rel) &&
    Same(game.dol.value, state.dol) && Same(game.rel.value, state.rel)
  }

  predicate LocalBuildMatches(product: Product, profile: Profile, fingerprint: Fingerprint) {
    product.local.Some? && product.local.value.profile == profile &&
    Same(product.local.value.dol, fingerprint.dol) && Same(product.local.value.rel, fingerprint.rel) &&
    (profile.RetroProfile? ==>
      product.local.value.mode == Some(fingerprint.mode) &&
      Same(if product.local.value.payloadSha.Some? then product.local.value.payloadSha.value else Blank,
           fingerprint.payloadSha) &&
      (if product.local.value.payloadLength.Some? then product.local.value.payloadLength.value else 0) ==
      fingerprint.payloadLength)
  }

  predicate ValidProvenance(d: Disk, product: Product, profile: Profile, fingerprint: Fingerprint,
                            state: InstallState) {
    fingerprint.profile == profile && fingerprint.dol.Text? && fingerprint.rel.Text? && fingerprint.exe.Text? &&
    UsableExecutable(product) && Same(product.exe.value.hash, fingerprint.exe) &&
    GameInputsMatch(d.game, fingerprint, state) && LocalBuildMatches(product, profile, fingerprint)
  }

  function CheckBaseCore(d: Disk, toolkit: Text): Status {
    var state := ReadCurrentInstallState(d);
    if !UsableExecutable(d.base) then Broken
    else if !HasUsableToolkit(d, toolkit) then Blocked
    else if state.None? then Blocked
    else if d.base.fingerprint.None? then Blocked
    else if d.base.fingerprint.value.toolkit != toolkit then ToolkitChanged
    else if ValidProvenance(d, d.base, BaseProfile, d.base.fingerprint.value, state.value) then Current
    else Blocked
  }

  function CheckBase(d: Disk, toolkit: Text): Status {
    var status := CheckBaseCore(d, toolkit);
    if status.Current? && !AssetsValid(d, d.base, toolkit) then Broken else status
  }

  predicate CompileInputsRecorded(fingerprint: Fingerprint, state: InstallState) {
    fingerprint.codePul.Text? && fingerprint.compileInputs.Text? && state.codePul.Text? && state.compileInputs.Text? &&
    Same(state.codePul, fingerprint.codePul) && Same(state.compileInputs, fingerprint.compileInputs)
  }

  /** `observed` is what the operation already knows of the cached payload; `None` looks for itself. */
  function CheckPayloadCache(d: Disk, fingerprint: Fingerprint, state: InstallState, observed: Option<bool>): Status {
    if fingerprint.payloadSha.Blank? || fingerprint.payloadLength <= 0 ||
       state.payloadSha.Blank? || state.payloadLength <= 0 then Blocked
    else if observed == Some(false) then PayloadChanged
    else if observed == Some(true) then Current
    else if d.payload.Some? && Same(d.payload.value.sha, fingerprint.payloadSha) &&
            d.payload.value.length == fingerprint.payloadLength then Current
    else PayloadChanged
  }

  function CheckRetroRewindCore(d: Disk, toolkit: Text, canonical: Option<CompileInputs>, canonicalError: bool,
                                observed: Option<bool>): Status {
    var state := ReadCurrentInstallState(d);
    var recorded := state.Some? && state.value.retroInstalled;
    if (HasRetroProduct(d) || recorded) && !HasUsableToolkit(d, toolkit) then Blocked
    else if !HasRetroProduct(d) then (if recorded then Broken else Absent)
    else if canonicalError then InputsMissing
    else if d.retro.fingerprint.None? then Blocked
    else if d.retro.fingerprint.value.toolkit != toolkit then ToolkitChanged
    else if state.None? then Blocked
    else if !ValidProvenance(d, d.retro, RetroProfile, d.retro.fingerprint.value, state.value) then Blocked
    else if !CompileInputsRecorded(d.retro.fingerprint.value, state.value) then Blocked
    else if canonical.Some? && !Same(canonical.value.codePul, d.retro.fingerprint.value.codePul) then CodePulChanged
    else if canonical.Some? && !Same(canonical.value.inputs, d.retro.fingerprint.value.compileInputs)
    then CompileInputsChanged
    else if d.retro.fingerprint.value.mode.Downloaded?
    then CheckPayloadCache(d, d.retro.fingerprint.value, state.value, observed)
    else Current
  }

  function CheckRetroRewind(d: Disk, toolkit: Text, canonical: Option<CompileInputs>, canonicalError: bool,
                            observed: Option<bool>): Status {
    var status := CheckRetroRewindCore(d, toolkit, canonical, canonicalError, observed);
    if status.Current? && !AssetsValid(d, d.retro, toolkit) then Broken else status
  }

  predicate ProductUsesGameInputs(product: Product, dol: Text, rel: Text) {
    product.fingerprint.Some? && Same(product.fingerprint.value.dol, dol) && Same(product.fingerprint.value.rel, rel)
  }

  datatype PayloadMode = NotApplicable | Online | SkippedMode

  function ModeOf(mode: Mode): PayloadMode {
    match mode
    case Downloaded => Online
    case Skipped => SkippedMode
    case Empty => NotApplicable
    case Other(_) => NotApplicable
  }

  /** The product's recorded choice, or, when it records nothing, the installation's. */
  function ResolvePayloadMode(d: Disk): PayloadMode {
    if d.retro.fingerprint.Some? && !d.retro.fingerprint.value.mode.Empty? then ModeOf(d.retro.fingerprint.value.mode)
    else if d.state.Some? then ModeOf(d.state.value.mode)
    else NotApplicable
  }

  predicate MatchesPayloadSnapshot(d: Disk, snapshot: Payload) {
    var state := ReadCurrentInstallState(d);
    d.retro.fingerprint.Some? && d.retro.fingerprint.value.mode.Downloaded? &&
    state.Some? && state.value.mode.Downloaded? &&
    d.retro.fingerprint.value.payloadSha == snapshot.sha && state.value.payloadSha == snapshot.sha
  }

  predicate CachedPayloadMatches(d: Disk, snapshot: Payload) {
    d.payload == Some(snapshot)
  }
}
