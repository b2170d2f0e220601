/** What inspection, decision and publication say of the records and files themselves. */
module ProductFacts {
  import opened Basics
  import opened Inspection
  import opened Reconciliation

  /** The record is the file's hash, in whatever spelling. */
  ghost predicate Names(record: Text, file: FileHash) {
    record.Text? && record.folded == file.folded
  }

  ghost predicate Agree(a: Text, b: Text) {
    (a.Blank? && b.Blank?) || (a.Text? && b.Text? && a.folded == b.folded)
  }

  ghost predicate StateIsOfThisRoot(d: Disk) {
    d.state.Some? && d.state.value.schema == 1 && Names(d.state.value.installDir, d.root)
  }

  /** A usable executable that this toolkit built from the installed game: every record of the three hashes,
      beside the product and in the state, is that of the file in place. */
  ghost predicate Genuine(d: Disk, p: Product, profile: Profile, toolkit: Text) {
    d.hasToolkit && toolkit.Text? && StateIsOfThisRoot(d) && p.exe.Some? && p.fingerprint.Some? && p.local.Some? &&
    d.game.fst && d.game.dol.Some? && d.game.rel.Some? &&
    var f, l, s := p.fingerprint.value, p.local.value, d.state.value;
    f.profile == l.profile == profile && f.toolkit == toolkit &&
    p.exe.value.usable && Names(f.exe, p.exe.value.hash) &&
    Names(f.dol, d.game.dol.value) && Names(l.dol, d.game.dol.value) && Names(s.dol, d.game.dol.value) &&
    Names(f.rel, d.game.rel.value) && Names(l.rel, d.game.rel.value) && Names(s.rel, d.game.rel.value)
  }

  /** The support files beside the product are those of the toolkit. */
  ghost predicate Supported(d: Disk, p: Product, toolkit: Text) {
    d.toolkit.Some? && d.toolkit.value.fingerprint == toolkit && d.toolkit.value.assets.Text? && p.assets.Some? &&
    p.assets.value == d.toolkit.value.assets
  }

  lemma BaseIsCurrentExactly(d: Disk, toolkit: Text)
    ensures CheckBaseCore(d, toolkit).Current? <==> Genuine(d, d.base, BaseProfile, toolkit)
    ensures CheckBase(d, toolkit).Current? <==>
            Genuine(d, d.base, BaseProfile, toolkit) && Supported(d, d.base, toolkit)
  {
  }

  /** What Retro Rewind's records hold besides: the payload and its mode alike in both, and the compile inputs,
      those there are now if they are known. */
  ghost predicate GenuineRetro(d: Disk, toolkit: Text, canonical: Option<CompileInputs>) {
    Genuine(d, d.retro, RetroProfile, toolkit) &&
    var f, l, s := d.retro.fingerprint.value, d.retro.local.value, d.state.value;
    l.mode == Some(f.mode) && Agree(if l.payloadSha.Some? then l.payloadSha.value else Blank, f.payloadSha) &&
    (if l.payloadLength.Some? then l.payloadLength.value else 0) == f.payloadLength &&
    f.codePul.Text? && f.compileInputs.Text? && Agree(s.codePul, f.codePul) && Agree(s.compileInputs, f.compileInputs) &&
    (canonical.Some? ==> Names(f.codePul, canonical.value.codePul) && Names(f.compileInputs, canonical.value.inputs))
  }

  /** A payload is on record as downloaded, in the product and in the state. */
  ghost predicate PayloadRecorded(d: Disk)
    requires d.retro.fingerprint.Some? && d.state.Some?
  {
    d.retro.fingerprint.value.payloadSha.Text? && d.retro.fingerprint.value.payloadLength > 0 &&
    d.state.value.payloadSha.Text? && d.state.value.payloadLength > 0
  }

  /** The cached payload is the recorded one, as observed or, if nobody has looked, by its hash and length. */
  ghost predicate PayloadInPlace(d: Disk, observed: Option<bool>)
    requires d.retro.fingerprint.Some?
  {
    match observed
    case Some(matches) => matches
    case None =>
      d.payload.Some? && Names(d.retro.fingerprint.value.payloadSha, d.payload.value.sha) &&
      d.payload.value.length == d.retro.fingerprint.value.payloadLength
  }

  lemma RetroIsCurrentExactly(d: Disk, toolkit: Text, canonical: Option<CompileInputs>, observed: Option<bool>)
    ensures CheckRetroRewindCore(d, toolkit, canonical, false, observed).Current? <==>
            GenuineRetro(d, toolkit, canonical) &&
            (d.retro.fingerprint.value.mode.Downloaded? ==> PayloadRecorded(d) && PayloadInPlace(d, observed))
    ensures CheckRetroRewind(d, toolkit, canonical, false, observed).Current? <==>
            CheckRetroRewindCore(d, toolkit, canonical, false, observed).Current? && Supported(d, d.retro, toolkit)
    ensures CheckRetroRewindCore(d, toolkit, canonical, false, observed).PayloadChanged? <==>
            GenuineRetro(d, toolkit, canonical) && d.retro.fingerprint.value.mode.Downloaded? && PayloadRecorded(d) &&
            !PayloadInPlace(d, observed)
    ensures CheckRetroRewindCore(d, toolkit, canonical, false, observed).Absent? <==>
            d.retro.exe.None? && !(StateIsOfThisRoot(d) && d.state.value.retroInstalled)
  {
  }

  /** What is wrong is named: a missing or unusable product is broken, one of another toolkit is out of date, one
      built from other compile inputs is so named, and what cannot be told is blocked. */
  lemma BaseStatusNamesTheReason(d: Disk, toolkit: Text)
    ensures CheckBaseCore(d, toolkit).Broken? <==> !(d.base.exe.Some? && d.base.exe.value.usable)
    ensures CheckBaseCore(d, toolkit).ToolkitChanged? <==>
            d.base.exe.Some? && d.base.exe.value.usable && d.hasToolkit && toolkit.Text? && StateIsOfThisRoot(d) &&
            d.base.fingerprint.Some? && d.base.fingerprint.value.toolkit != toolkit
    ensures CheckBaseCore(d, toolkit) in {Broken, ToolkitChanged, Current, Blocked}
  {
  }

  lemma RetroStatusNamesTheReason(d: Disk, toolkit: Text, canonical: Option<CompileInputs>, unreadable: bool,
                                  observed: Option<bool>)
    ensures var status := CheckRetroRewindCore(d, toolkit, canonical, unreadable, observed);
      var present, usable := d.retro.exe.Some?, d.hasToolkit && toolkit.Text?;
      (status.Broken? <==> !present && usable && StateIsOfThisRoot(d) && d.state.value.retroInstalled) &&
      (status.InputsMissing? <==> present && usable && unreadable) &&
      (status.ToolkitChanged? <==> present && usable && !unreadable && d.retro.fingerprint.Some? &&
                                   d.retro.fingerprint.value.toolkit != toolkit) &&
      (status.CodePulChanged? <==> !unreadable && GenuineBuild(d, toolkit) && canonical.Some? &&
                                   !Names(d.retro.fingerprint.value.codePul, canonical.value.codePul)) &&
      (status.CompileInputsChanged? <==> !unreadable && GenuineBuild(d, toolkit) && canonical.Some? &&
                                         Names(d.retro.fingerprint.value.codePul, canonical.value.codePul) &&
                                         !Names(d.retro.fingerprint.value.compileInputs, canonical.value.inputs))
  {
  }

  ghost predicate GenuineBuild(d: Disk, toolkit: Text) {
    GenuineRetro(d, toolkit, None)
  }

  // -------------------------------------------------------------------------------------- the decision

  /** The release asks for other game inputs than the product was built from. */
  ghost predicate Drifted(p: Product, r: Request) {
    r.expectedDol.Text? && r.expectedRel.Text? && p.exe.Some? &&
    !(p.fingerprint.Some? && Agree(p.fingerprint.value.dol, r.expectedDol) &&
      Agree(p.fingerprint.value.rel, r.expectedRel))
  }

  /** The toolkit's own record, if it is complete. */
  ghost predicate ToolkitIs(d: Disk, toolkit: Text) {
    d.hasToolkit && toolkit.Text? && d.toolkit.Some? && d.toolkit.value.fingerprint == toolkit &&
    d.toolkit.value.package.Text?
  }

  /** The installed Retro Rewind holds the payload that was asked for, in the mode that was asked for. */
  ghost predicate PayloadAsAsked(d: Disk, r: Request)
    requires r.mode.Online? ==> r.snapshot.Some?
    requires d.retro.fingerprint.Some? && d.state.Some?
  {
    var f, s := d.retro.fingerprint.value, d.state.value;
    if r.mode.Online? then
      f.mode.Downloaded? && s.mode.Downloaded? && f.payloadSha == s.payloadSha == r.snapshot.value.sha &&
      f.payloadLength > 0 && s.payloadLength > 0
    else !f.mode.Downloaded? && !(f.mode.Empty? && s.mode.Downloaded?)
  }

  /** A request for both products is refused only for what it lacks; one for the base game also if Retro Rewind is
      there, or on record, and not current. */
  lemma RefusedExactly(d: Disk, r: Request)
    requires Admitted(r)
    ensures Refuses(d, r) <==>
            !d.present ||
            (r.expectedDol.Text? && r.expectedRel.Blank?) || (r.expectedDol.Blank? && r.expectedRel.Text?) ||
            !(d.toolkit.Some? && ToolkitIs(d, d.toolkit.value.fingerprint)) ||
            (r.inputs.Some? && r.canonicalRoot.None?) ||
            (r.inputs.None? && !RetroMayStay(d, r))
  {
  }

  /** Retro Rewind as a base-only operation leaves it: not installed, or current and from the release's inputs. */
  ghost predicate RetroMayStay(d: Disk, r: Request) {
    if d.retro.exe.None? then !(StateIsOfThisRoot(d) && d.state.value.retroInstalled)
    else
      d.toolkit.Some? && GenuineBuild(d, d.toolkit.value.fingerprint) && !Drifted(d.retro, r) &&
      (d.retro.fingerprint.value.mode.Downloaded? ==> PayloadRecorded(d) && PayloadInPlace(d, None))
  }

  /** A product is rebuilt exactly if it is not genuine or the release, the compile inputs or the payload ask for
      another; otherwise just its support files are put right. The payload is published exactly for an online
      request whose payload is not in the cache or is built in, and the root whenever it is recorded otherwise. */
  lemma DecidedExactly(d: Disk, r: Request, toolkit: Text)
    requires Admitted(r) && !Refuses(d, r) && ToolkitIs(d, toolkit)
    ensures var c := Decide(d, r);
      (c.rebuildBase <==> !Genuine(d, d.base, BaseProfile, toolkit) || Drifted(d.base, r)) &&
      (c.rebuildRetro <==>
         (r.inputs.Some? &&
          (!GenuineRetro(d, toolkit, r.inputs) || Drifted(d.retro, r) || !PayloadAsAsked(d, r)))) &&
      (c.syncPayload <==> r.mode.Online? && (c.rebuildRetro || d.payload != r.snapshot)) &&
      (c.syncBaseAssets <==> !c.rebuildBase && !Supported(d, d.base, toolkit)) &&
      (c.syncRetroAssets <==> !c.rebuildRetro && d.retro.exe.Some? && !Supported(d, d.retro, toolkit)) &&
      (c.rootChanged <==>
         (r.inputs.Some? &&
          !(d.configuredRoot.Some? && Agree(d.configuredRoot.value, r.canonicalRoot.value) &&
            d.state.Some? && Agree(d.state.value.retroRoot, r.canonicalRoot.value))))
  {
  }

  // --------------------------------------------------------------------------------- what is published

  /** The installed game is the one the release names or, if it names none, the one on record. */
  ghost predicate GameIsTheOneToBuild(d: Disk, r: Request) {
    d.game.dol.Some? && d.game.rel.Some? &&
    if r.expectedDol.Text? || r.expectedRel.Text? then
      Names(r.expectedDol, d.game.dol.value) && Names(r.expectedRel, d.game.rel.value)
    else
      d.state.Some? && d.state.value.schema == 1 &&
      Names(d.state.value.dol, d.game.dol.value) && Names(d.state.value.rel, d.game.rel.value)
  }

  /** What is decided can be carried out: builds need the toolkit as it is on record and the installed game to be
      the one the build is for, copies of the support files need a workspace with the files on record. */
  lemma PublishableExactly(d: Disk, r: Request)
    requires Admitted(r)
    ensures var c := Decide(d, r);
      CanPublish(d, r) <==>
        (c.rebuildBase || c.rebuildRetro ==>
           d.computedToolkit == (if d.toolkit.Some? && ToolkitIs(d, d.toolkit.value.fingerprint)
                                 then d.toolkit.value.fingerprint else Blank) &&
           GameIsTheOneToBuild(d, r)) &&
        (c.syncBaseAssets || c.syncRetroAssets ==>
           d.toolkit.Some? && d.toolkit.value.assets.Text? && d.workspaceAssets.Some? &&
           d.workspaceAssets.value == d.toolkit.value.assets)
  {
  }

  /** A product that was rebuilt is the build of that product, with the workspace's support files; of one that was
      kept only the support files may have been replaced. */
  ghost predicate ProductBecomes(was: Product, now: Product, rebuilt: bool, synced: bool, exe: FileHash, d: Disk) {
    now.exe == (if rebuilt then Some(Executable(exe, true)) else was.exe) &&
    (!rebuilt ==> now.fingerprint == was.fingerprint && now.local == was.local) &&
    now.assets == if rebuilt || synced then d.workspaceAssets else was.assets
  }

  /** Everything a publication changes, and from what; the game, the toolkit and its record are as they were. */
  lemma PublishedExactly(d: Disk, r: Request, built: Built)
    requires Admitted(r) && !Refuses(d, r) && CanPublish(d, r)
    ensures var c, after := Decide(d, r), Published(d, r, built);
      ProductBecomes(d.base, after.base, c.rebuildBase, c.syncBaseAssets, built.base, d) &&
      ProductBecomes(d.retro, after.retro, c.rebuildRetro, c.syncRetroAssets, built.retro, d) &&
      (r.mode.Online? ==> after.payload == r.snapshot) &&
      (!r.mode.Online? ==> after.payload == if c.rebuildRetro then None else d.payload) &&
      after.configuredRoot == (if r.inputs.Some? then r.canonicalRoot else d.configuredRoot) &&
      after.game == d.game && after.toolkit == d.toolkit && after.computedToolkit == d.computedToolkit &&
      after.present == d.present && after.hasToolkit == d.hasToolkit && after.root == d.root &&
      after.workspaceAssets == d.workspaceAssets &&
      (!(c.rebuildBase || c.rebuildRetro) ==>
         after.workspaceDol == d.workspaceDol && after.workspaceRel == d.workspaceRel) &&
      (!(c.rebuildBase || c.rebuildRetro) && r.inputs.None? ==> after.state == d.state)
  {
  }

  /** What the state records after a publication that writes it: this root, the release's game inputs if it names
      them, the compile inputs and the root that were asked for, and the payload of the product now installed;
      anything else is as it was. */
  lemma StateExactly(d: Disk, r: Request, built: Built)
    requires Admitted(r) && !Refuses(d, r) && CanPublish(d, r)
    requires Decide(d, r).rebuildBase || Decide(d, r).rebuildRetro || r.inputs.Some?
    ensures var after := Published(d, r, built);
      after.state.Some? &&
      var s, f := after.state.value, after.retro.fingerprint;
      s.schema == 1 && s.installDir == d.root && s.retroInstalled == (r.inputs.Some? || d.retro.exe.Some?) &&
      (r.expectedDol.Text? ==> s.dol == r.expectedDol && s.rel == r.expectedRel) &&
      (r.expectedDol.Blank? && d.state.Some? ==> s.dol == d.state.value.dol && s.rel == d.state.value.rel) &&
      (r.inputs.Some? ==> s.codePul == r.inputs.value.codePul && s.compileInputs == r.inputs.value.inputs &&
                          s.retroRoot == r.canonicalRoot.value) &&
      (r.inputs.None? && d.state.Some? ==>
         s.codePul == d.state.value.codePul && s.compileInputs == d.state.value.compileInputs &&
         s.retroRoot == d.state.value.retroRoot) &&
      (f.Some? && !f.value.mode.Empty? && !(f.value.mode.Other? && f.value.mode.white) ==>
         s.mode == f.value.mode && s.payloadSha == f.value.payloadSha && s.payloadLength == f.value.payloadLength) &&
      (d.state.Some? && (f.None? || f.value.mode.Empty? || (f.value.mode.Other? && f.value.mode.white)) ==>
         s.mode == d.state.value.mode && s.payloadSha == d.state.value.payloadSha &&
         s.payloadLength == d.state.value.payloadLength)
  {
  }

  /** What is recorded beside a rebuilt product: the toolkit, the hashes of its executable and of the game it was
      translated from, and for Retro Rewind the compile inputs and the payload that were asked for. */
  lemma RebuiltRecordsExactly(d: Disk, r: Request, built: Built)
    requires Admitted(r) && !Refuses(d, r) && CanPublish(d, r)
    ensures var c, after := Decide(d, r), Published(d, r, built);
      (c.rebuildBase ==> RecordsBuild(after, after.base, BaseProfile, built.base)) &&
      (c.rebuildRetro ==>
         RecordsBuild(after, after.retro, RetroProfile, built.retro) &&
         var f := after.retro.fingerprint.value;
         f.codePul == r.inputs.value.codePul && f.compileInputs == r.inputs.value.inputs &&
         if r.mode.Online? then
           f.mode.Downloaded? && f.payloadSha == r.snapshot.value.sha && f.payloadLength == r.snapshot.value.length
         else f.mode.Skipped? && f.payloadSha.Blank? && f.payloadLength == 0)
  {
  }

  ghost predicate RecordsBuild(after: Disk, p: Product, profile: Profile, exe: FileHash) {
    p.fingerprint.Some? && p.local.Some? && after.game.dol.Some? && after.game.rel.Some? &&
    after.workspaceDol.Some? && after.workspaceRel.Some? &&
    var f, l := p.fingerprint.value, p.local.value;
    f.profile == l.profile == profile && ToolkitIs(after, f.toolkit) && f.exe == exe &&
    f.dol == l.dol == after.workspaceDol.value && Names(f.dol, after.game.dol.value) &&
    f.rel == l.rel == after.workspaceRel.value && Names(f.rel, after.game.rel.value)
  }
}
