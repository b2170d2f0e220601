/** The one transaction in which a reconciliation publishes what it has decided, and its atomicity. */
module Publication {
  import opened Basics
  import opened FileTree
  import opened Paths
  import opened InstallJournal
  import opened InstallRecovery
  import opened InstallMachine
  import opened InstallTransactions
  import opened InstallRuns
  import opened Inspection
  import opened Reconciliation

  /** The destinations of the one transaction, below the installation's root. */
  function Destinations(c: Decision, r: Request, root: Path): seq<Path> {
    ProductParts(c, root) + PayloadParts(c.syncPayload, c.rebuildRetro && r.mode.SkippedMode?, root) +
    Whole(PublishesState(c, r), root + ["install-state.json"])
  }

  function ProductParts(c: Decision, root: Path): seq<Path> {
    Whole(c.rebuildBase, root + ["Base"]) +
    Whole(c.rebuildRetro, root + ["RetroRewind"]) +
    Assets(c.syncBaseAssets, root + ["Base"]) +
    Assets(c.syncRetroAssets, root + ["RetroRewind"])
  }

  function PayloadParts(published: bool, removed: bool, root: Path): seq<Path> {
    Whole(published, PayloadPath(root)) + Whole(removed, PayloadPath(root))
  }

  function Whole(included: bool, path: Path): seq<Path> {
    if included then [path] else []
  }

  function Assets(included: bool, product: Path): seq<Path> {
    if !included then []
    else [product + ["wii_bootstrap"], product + ["dsp_coef.bin"], product + ["initial_pipeline_cache.db"]]
  }

  function PayloadPath(root: Path): Path {
    root + ["BuildWorkspace", "Assets", "OfflinePayload"]
  }

  ghost predicate ListsApart(left: seq<Path>, right: seq<Path>) {
    forall i, j | 0 <= i < |left| && 0 <= j < |right| :: !Overlap(left[i], right[j])
  }

  /** All paths are at or below one entry of the root. */
  ghost predicate Under(paths: seq<Path>, root: Path, name: string) {
    forall i | 0 <= i < |paths| :: root + [name] <= paths[i]
  }

  lemma UnderApart(left: seq<Path>, right: seq<Path>, root: Path, l: string, r: string)
    requires Under(left, root, l) && Under(right, root, r) && l != r
    ensures ListsApart(left, right)
  {
    forall i, j | 0 <= i < |left| && 0 <= j < |right| ensures !Overlap(left[i], right[j]) {
      assert (root + [l])[|root|] == left[i][|root|] && (root + [r])[|root|] == right[j][|root|];
    }
  }

  lemma AssetsDisjoint(included: bool, product: Path)
    ensures PairwiseDisjoint(Assets(included, product))
  {
    assert |"wii_bootstrap"| == 13 && |"dsp_coef.bin"| == 12 && |"initial_pipeline_cache.db"| == 25;
    UnderApart([product + ["wii_bootstrap"]], [product + ["dsp_coef.bin"]], product, "wii_bootstrap", "dsp_coef.bin");
    UnderApart([product + ["wii_bootstrap"]], [product + ["initial_pipeline_cache.db"]], product,
               "wii_bootstrap", "initial_pipeline_cache.db");
    UnderApart([product + ["dsp_coef.bin"]], [product + ["initial_pipeline_cache.db"]], product,
               "dsp_coef.bin", "initial_pipeline_cache.db");
    ThreeDisjoint(product + ["wii_bootstrap"], product + ["dsp_coef.bin"], product + ["initial_pipeline_cache.db"]);
  }

  lemma ThreeDisjoint(a: Path, b: Path, c: Path)
    requires ListsApart([a], [b]) && ListsApart([a], [c]) && ListsApart([b], [c])
    ensures PairwiseDisjoint([a, b, c])
  {
    assert [a, b, c] == [a] + ([b] + [c]);
    assert forall i, j | 0 <= i < 1 && 0 <= j < 1 :: !Overlap([b][i], [c][j]);
    assert ListsApart([a], [b] + [c]) by {
      forall i, j | 0 <= i < 1 && 0 <= j < 2 ensures !Overlap([a][i], ([b] + [c])[j]) {
        assert !Overlap([a][0], [b][0]) && !Overlap([a][0], [c][0]);
      }
    }
  }

  /** Paths that all run through one of the root's entries `names`. */
  ghost predicate Through(paths: seq<Path>, root: Path, names: set<string>) {
    forall i | 0 <= i < |paths| :: |paths[i]| > |root| && root <= paths[i] && paths[i][|root|] in names
  }

  lemma AssetsThrough(included: bool, root: Path, name: string)
    ensures PairwiseDisjoint(Assets(included, root + [name])) && Through(Assets(included, root + [name]), root, {name})
  {
    AssetsDisjoint(included, root + [name]);
  }

  lemma TwoParts(left: seq<Path>, right: seq<Path>, root: Path, a: string, b: string)
    requires PairwiseDisjoint(left) && PairwiseDisjoint(right) && a != b
    requires Through(left, root, {a}) && Through(right, root, {b})
    ensures PairwiseDisjoint(left + right) && Through(left + right, root, {a, b})
  {
  }

  /** Parts that run through an entry of the root each, two through the same entry only if one is empty. */
  lemma PartsAreDisjoint(p1: seq<Path>, p2: seq<Path>, p3: seq<Path>, p4: seq<Path>,
                         root: Path, a: string, b: string)
    requires PairwiseDisjoint(p1) && PairwiseDisjoint(p2) && PairwiseDisjoint(p3) && PairwiseDisjoint(p4)
    requires Through(p1, root, {a}) && Through(p2, root, {b}) && Through(p3, root, {a}) && Through(p4, root, {b})
    requires a != b && (p1 == [] || p3 == []) && (p2 == [] || p4 == [])
    ensures PairwiseDisjoint(p1 + p2 + p3 + p4) && Through(p1 + p2 + p3 + p4, root, {a, b})
  {
    var all := p1 + p2 + p3 + p4;
    if p3 == [] && p4 == [] {
      TwoParts(p1, p2, root, a, b);
      assert all == p1 + p2;
    } else if p1 == [] && p4 == [] {
      TwoParts(p2, p3, root, b, a);
      assert all == p2 + p3 && {a, b} == {b, a};
    } else if p3 == [] {
      TwoParts(p1, p4, root, a, b);
      assert all == p1 + p4;
    } else {
      TwoParts(p3, p4, root, a, b);
      assert all == p3 + p4;
    }
  }

  lemma ProductPartsAreDisjoint(c: Decision, root: Path)
    requires !(c.rebuildBase && c.syncBaseAssets) && !(c.rebuildRetro && c.syncRetroAssets)
    ensures PairwiseDisjoint(ProductParts(c, root)) && Through(ProductParts(c, root), root, {"Base", "RetroRewind"})
  {
    AssetsThrough(c.syncBaseAssets, root, "Base");
    AssetsThrough(c.syncRetroAssets, root, "RetroRewind");
    assert ["Base"] + [] == ["Base"] && ["RetroRewind"] + [] == ["RetroRewind"];
    PartsAreDisjoint(Whole(c.rebuildBase, root + ["Base"]), Whole(c.rebuildRetro, root + ["RetroRewind"]),
                     Assets(c.syncBaseAssets, root + ["Base"]), Assets(c.syncRetroAssets, root + ["RetroRewind"]),
                     root, "Base", "RetroRewind");
  }

  lemma DestinationsAreDisjoint(c: Decision, r: Request, root: Path)
    requires !(c.rebuildBase && c.syncBaseAssets) && !(c.rebuildRetro && c.syncRetroAssets)
    requires !(c.syncPayload && c.rebuildRetro && r.mode.SkippedMode?)
    ensures PairwiseDisjoint(Destinations(c, r, root)) && Through(Destinations(c, r, root), root, LIVE)
  {
    var removed := c.rebuildRetro && r.mode.SkippedMode?;
    ProductPartsAreDisjoint(c, root);
    assert ["install-state.json"] + [] == ["install-state.json"];
    ThreeParts(ProductParts(c, root), PayloadParts(c.syncPayload, removed, root),
               Whole(PublishesState(c, r), root + ["install-state.json"]), root);
  }

  /** The entries of the installation that publications replace, or replace parts of. */
  const LIVE: set<string> := {"Base", "RetroRewind", "BuildWorkspace", "install-state.json"}

  lemma ThreeParts(products: seq<Path>, payload: seq<Path>, state: seq<Path>, root: Path)
    requires PairwiseDisjoint(products) && Through(products, root, {"Base", "RetroRewind"})
    requires PairwiseDisjoint(payload) && Through(payload, root, {"BuildWorkspace"})
    requires PairwiseDisjoint(state) && Through(state, root, {"install-state.json"})
    ensures PairwiseDisjoint(products + payload + state) && Through(products + payload + state, root, LIVE)
  {
  }

  /** Every plan that is published has at least one entry and far fewer than 64, all at destinations none of
      which contains another. */
  lemma PlanIsPublishable(d: Disk, r: Request, root: Path)
    requires Admitted(r) && !NothingToDo(Decide(d, r))
    ensures 1 <= |Destinations(Decide(d, r), r, root)| <= 8
    ensures PairwiseDisjoint(Destinations(Decide(d, r), r, root))
  {
    PayloadIsStaged(d, r);
    DestinationsAreDisjoint(Decide(d, r), r, root);
  }

  // ------------------------------------------------------------------------------------ the entries

  function Part(included: bool, prepared: Path, destination: Path, kind: Kind): seq<PublishEntry> {
    if included then [PublishEntry(prepared, destination, kind)] else []
  }

  function AssetParts(included: bool, prepared: Path, product: Path): seq<PublishEntry> {
    if !included then []
    else [PublishEntry(prepared + ["wii_bootstrap"], product + ["wii_bootstrap"], Directory),
          PublishEntry(prepared + ["dsp_coef.bin"], product + ["dsp_coef.bin"], RegularFile),
          PublishEntry(prepared + ["initial_pipeline_cache.db"], product + ["initial_pipeline_cache.db"], RegularFile)]
  }

  /** Where everything is: the installation, the operation's scratch space, and in it the staged payload. */
  datatype Site = Site(root: Path, scratch: Path, payload: Path)

  function ProductEntries(c: Decision, site: Site): seq<PublishEntry> {
    Part(c.rebuildBase, site.scratch + ["base-output"], site.root + ["Base"], Directory) +
    Part(c.rebuildRetro, site.scratch + ["retro-output"], site.root + ["RetroRewind"], Directory) +
    AssetParts(c.syncBaseAssets, site.scratch + ["runtime-asset-repair", "Base"], site.root + ["Base"]) +
    AssetParts(c.syncRetroAssets, site.scratch + ["runtime-asset-repair", "RetroRewind"], site.root + ["RetroRewind"])
  }

  function PayloadEntries(published: bool, removed: bool, site: Site): seq<PublishEntry> {
    Part(published, site.payload, PayloadPath(site.root), Directory) +
    Part(removed, site.scratch + ["retro-wfc-payload-removed"], PayloadPath(site.root), Directory)
  }

  /** What the transaction publishes. */
  function Entries(c: Decision, r: Request, site: Site): seq<PublishEntry> {
    ProductEntries(c, site) +
    PayloadEntries(c.syncPayload, c.rebuildRetro && r.mode.SkippedMode?, site) +
    Part(PublishesState(c, r), site.scratch + ["install-state.json"], site.root + ["install-state.json"], RegularFile)
  }

  function PreparedOf(entries: seq<PublishEntry>): seq<Path> {
    seq(|entries|, i requires 0 <= i < |entries| => entries[i].prepared)
  }

  function DestinationsOf(entries: seq<PublishEntry>): seq<Path> {
    seq(|entries|, i requires 0 <= i < |entries| => entries[i].destination)
  }

  lemma ListsJoined(a: seq<PublishEntry>, b: seq<PublishEntry>)
    ensures PreparedOf(a + b) == PreparedOf(a) + PreparedOf(b)
    ensures DestinationsOf(a + b) == DestinationsOf(a) + DestinationsOf(b)
  {
  }

  lemma PartLists(included: bool, prepared: Path, destination: Path, kind: Kind)
    ensures PreparedOf(Part(included, prepared, destination, kind)) == Whole(included, prepared)
    ensures DestinationsOf(Part(included, prepared, destination, kind)) == Whole(included, destination)
  {
  }

  lemma AssetLists(included: bool, prepared: Path, product: Path)
    ensures PreparedOf(AssetParts(included, prepared, product)) == Assets(included, prepared)
    ensures DestinationsOf(AssetParts(included, prepared, product)) == Assets(included, product)
  {
  }

  function PreparedProducts(c: Decision, scratch: Path): seq<Path> {
    Whole(c.rebuildBase, scratch + ["base-output"]) + Whole(c.rebuildRetro, scratch + ["retro-output"]) +
    Assets(c.syncBaseAssets, scratch + ["runtime-asset-repair", "Base"]) +
    Assets(c.syncRetroAssets, scratch + ["runtime-asset-repair", "RetroRewind"])
  }

  function PreparedPayload(published: bool, removed: bool, site: Site): seq<Path> {
    Whole(published, site.payload) + Whole(removed, site.scratch + ["retro-wfc-payload-removed"])
  }

  lemma ProductLists(c: Decision, site: Site)
    ensures PreparedOf(ProductEntries(c, site)) == PreparedProducts(c, site.scratch)
    ensures DestinationsOf(ProductEntries(c, site)) == ProductParts(c, site.root)
  {
    var p1 := Part(c.rebuildBase, site.scratch + ["base-output"], site.root + ["Base"], Directory);
    var p2 := Part(c.rebuildRetro, site.scratch + ["retro-output"], site.root + ["RetroRewind"], Directory);
    var p3 := AssetParts(c.syncBaseAssets, site.scratch + ["runtime-asset-repair", "Base"], site.root + ["Base"]);
    var p4 := AssetParts(c.syncRetroAssets, site.scratch + ["runtime-asset-repair", "RetroRewind"],
                         site.root + ["RetroRewind"]);
    PartLists(c.rebuildBase, site.scratch + ["base-output"], site.root + ["Base"], Directory);
    PartLists(c.rebuildRetro, site.scratch + ["retro-output"], site.root + ["RetroRewind"], Directory);
    AssetLists(c.syncBaseAssets, site.scratch + ["runtime-asset-repair", "Base"], site.root + ["Base"]);
    AssetLists(c.syncRetroAssets, site.scratch + ["runtime-asset-repair", "RetroRewind"], site.root + ["RetroRewind"]);
    ListsJoined(p1, p2);
    ListsJoined(p1 + p2, p3);
    ListsJoined(p1 + p2 + p3, p4);
  }

  lemma EntryLists(c: Decision, r: Request, site: Site)
    ensures DestinationsOf(Entries(c, r, site)) == Destinations(c, r, site.root)
    ensures PreparedOf(Entries(c, r, site)) ==
            PreparedProducts(c, site.scratch) +
            PreparedPayload(c.syncPayload, c.rebuildRetro && r.mode.SkippedMode?, site) +
            Whole(PublishesState(c, r), site.scratch + ["install-state.json"])
  {
    var removed := c.rebuildRetro && r.mode.SkippedMode?;
    ProductLists(c, site);
    PartLists(c.syncPayload, site.payload, PayloadPath(site.root), Directory);
    PartLists(removed, site.scratch + ["retro-wfc-payload-removed"], PayloadPath(site.root), Directory);
    PartLists(PublishesState(c, r), site.scratch + ["install-state.json"], site.root + ["install-state.json"],
              RegularFile);
    var payload := PayloadEntries(c.syncPayload, removed, site);
    ListsJoined(Part(c.syncPayload, site.payload, PayloadPath(site.root), Directory),
                Part(removed, site.scratch + ["retro-wfc-payload-removed"], PayloadPath(site.root), Directory));
    ListsJoined(ProductEntries(c, site), payload);
    ListsJoined(ProductEntries(c, site) + payload,
                Part(PublishesState(c, r), site.scratch + ["install-state.json"], site.root + ["install-state.json"],
                     RegularFile));
  }

  // ---------------------------------------------------------------------- nothing gets in its own way

  lemma Joined(left: seq<Path>, right: seq<Path>, root: Path, a: set<string>, b: set<string>)
    requires PairwiseDisjoint(left) && PairwiseDisjoint(right) && a !! b
    requires Through(left, root, a) && Through(right, root, b)
    ensures PairwiseDisjoint(left + right) && Through(left + right, root, a + b)
  {
  }

  lemma OneThrough(included: bool, path: Path, root: Path, name: string)
    requires |path| > |root| && root <= path && path[|root|] == name
    ensures PairwiseDisjoint(Whole(included, path)) && Through(Whole(included, path), root, {name})
  {
  }

  /** The names in the scratch space differ already in their lengths. */
  lemma ScratchNamesDiffer()
    ensures |"base-output"| == 11 && |"retro-output"| == 12 && |"runtime-asset-repair"| == 20
    ensures |"retro-wfc-payload"| == 17 && |"retro-wfc-payload-recovered"| == 27
    ensures |"retro-wfc-payload-removed"| == 25 && |"install-state.json"| == 18
  {
  }

  lemma RepairedAssetsApart(c: Decision, scratch: Path)
    ensures var assets := Assets(c.syncBaseAssets, scratch + ["runtime-asset-repair", "Base"]) +
                          Assets(c.syncRetroAssets, scratch + ["runtime-asset-repair", "RetroRewind"]);
      PairwiseDisjoint(assets) && Through(assets, scratch, {"runtime-asset-repair"})
  {
    var repair := scratch + ["runtime-asset-repair"];
    assert repair + ["Base"] == scratch + ["runtime-asset-repair", "Base"];
    assert repair + ["RetroRewind"] == scratch + ["runtime-asset-repair", "RetroRewind"];
    AssetsThrough(c.syncBaseAssets, repair, "Base");
    AssetsThrough(c.syncRetroAssets, repair, "RetroRewind");
    assert |"Base"| == 4 && |"RetroRewind"| == 11;
    Joined(Assets(c.syncBaseAssets, repair + ["Base"]), Assets(c.syncRetroAssets, repair + ["RetroRewind"]),
           repair, {"Base"}, {"RetroRewind"});
  }

  const OUTPUTS: set<string> := {"base-output"} + {"retro-output"}

  const PRODUCTS: set<string> := OUTPUTS + {"runtime-asset-repair"}

  lemma PreparedOutputsApart(c: Decision, scratch: Path)
    ensures var outputs :=
        Whole(c.rebuildBase, scratch + ["base-output"]) + Whole(c.rebuildRetro, scratch + ["retro-output"]);
      PairwiseDisjoint(outputs) && Through(outputs, scratch, OUTPUTS)
  {
    var base := Whole(c.rebuildBase, scratch + ["base-output"]);
    var retro := Whole(c.rebuildRetro, scratch + ["retro-output"]);
    ScratchNamesDiffer();
    OneThrough(c.rebuildBase, scratch + ["base-output"], scratch, "base-output");
    OneThrough(c.rebuildRetro, scratch + ["retro-output"], scratch, "retro-output");
    Joined(base, retro, scratch, {"base-output"}, {"retro-output"});
  }

  lemma PreparedProductsApart(c: Decision, scratch: Path)
    ensures PairwiseDisjoint(PreparedProducts(c, scratch))
    ensures Through(PreparedProducts(c, scratch), scratch, PRODUCTS)
  {
    var outputs := Whole(c.rebuildBase, scratch + ["base-output"]) + Whole(c.rebuildRetro, scratch + ["retro-output"]);
    var assets := Assets(c.syncBaseAssets, scratch + ["runtime-asset-repair", "Base"]) +
                  Assets(c.syncRetroAssets, scratch + ["runtime-asset-repair", "RetroRewind"]);
    ScratchNamesDiffer();
    PreparedOutputsApart(c, scratch);
    RepairedAssetsApart(c, scratch);
    Joined(outputs, assets, scratch, OUTPUTS, {"runtime-asset-repair"});
    assert PreparedProducts(c, scratch) == outputs + assets;
  }

  /** The payload was downloaded into the scratch space, or recovered into it. */
  predicate PayloadInScratch(site: Site) {
    |site.payload| > |site.scratch| && site.scratch <= site.payload &&
    (site.payload[|site.scratch|] == "retro-wfc-payload" ||
     site.payload[|site.scratch|] == "retro-wfc-payload-recovered")
  }

  lemma PreparedPayloadApart(published: bool, removed: bool, site: Site)
    requires PayloadInScratch(site)
    ensures var name := site.payload[|site.scratch|];
      PairwiseDisjoint(PreparedPayload(published, removed, site)) &&
      Through(PreparedPayload(published, removed, site), site.scratch, {name, "retro-wfc-payload-removed"})
  {
    var name, gone := site.payload[|site.scratch|], site.scratch + ["retro-wfc-payload-removed"];
    ScratchNamesDiffer();
    OneThrough(published, site.payload, site.scratch, name);
    OneThrough(removed, gone, site.scratch, "retro-wfc-payload-removed");
    Joined(Whole(published, site.payload), Whole(removed, gone), site.scratch, {name}, {"retro-wfc-payload-removed"});
    assert {name} + {"retro-wfc-payload-removed"} == {name, "retro-wfc-payload-removed"};
  }

  lemma JoinedThrice(p: seq<Path>, q: seq<Path>, r: seq<Path>, root: Path, a: set<string>, b: set<string>,
                     c: set<string>)
    requires PairwiseDisjoint(p) && PairwiseDisjoint(q) && PairwiseDisjoint(r)
    requires Through(p, root, a) && Through(q, root, b) && Through(r, root, c) && a !! b && a !! c && b !! c
    ensures PairwiseDisjoint(p + q + r) && forall i | 0 <= i < |p + q + r| :: root < (p + q + r)[i]
  {
    Joined(p, q, root, a, b);
    Joined(p + q, r, root, a + b, c);
  }

  lemma PreparedApart(c: Decision, r: Request, site: Site)
    requires PayloadInScratch(site)
    ensures PairwiseDisjoint(PreparedOf(Entries(c, r, site)))
    ensures forall i | 0 <= i < |Entries(c, r, site)| :: site.scratch < Entries(c, r, site)[i].prepared
  {
    var removed, state := c.rebuildRetro && r.mode.SkippedMode?, site.scratch + ["install-state.json"];
    ScratchNamesDiffer();
    PreparedProductsApart(c, site.scratch);
    PreparedPayloadApart(c.syncPayload, removed, site);
    OneThrough(PublishesState(c, r), state, site.scratch, "install-state.json");
    JoinedThrice(PreparedProducts(c, site.scratch), PreparedPayload(c.syncPayload, removed, site),
                 Whole(PublishesState(c, r), state), site.scratch,
                 PRODUCTS, {site.payload[|site.scratch|], "retro-wfc-payload-removed"}, {"install-state.json"});
    EntryLists(c, r, site);
    assert forall i | 0 <= i < |Entries(c, r, site)| ::
      PreparedOf(Entries(c, r, site))[i] == Entries(c, r, site)[i].prepared;
  }

  // --------------------------------------------------------------------- the plan and the transaction

  /** Outside the installation, or in a part of it that is never replaced. */
  predicate Beside(path: Path, root: Path) {
    !Overlap(path, root) || (root < path && path[|root|] !in LIVE)
  }

  lemma BesideIsApart(path: Path, root: Path, live: Path)
    requires Beside(path, root) && root < live && live[|root|] in LIVE
    ensures !Overlap(path, live)
  {
    assert live[..|root|] == root;
    if !Overlap(path, root) { DisjointFromBelow(path, root, live[|root|..]); assert live == root + live[|root|..]; }
  }

  /** No name of a live entry is that of a temporary. */
  lemma LiveNamesAreNoTemporaries(name: string)
    ensures !(name + ".tmp-" <= "Base") && !(name + ".tmp-" <= "RetroRewind")
    ensures !(name + ".tmp-" <= "BuildWorkspace") && !(name + ".tmp-" <= "install-state.json")
  {
    var t := name + ".tmp-";
    assert t[|name|] == '.' && t[|name| + 1] == 't';
    assert forall k | 0 <= k < |"Base"| :: "Base"[k] != '.';
    assert forall k | 0 <= k < |"RetroRewind"| :: "RetroRewind"[k] != '.';
    assert forall k | 0 <= k < |"BuildWorkspace"| :: "BuildWorkspace"[k] != '.';
    assert forall k | 0 <= k < |"install-state.json"| - 1 ::
      "install-state.json"[k] == '.' ==> "install-state.json"[k + 1] == 'j';
  }

  /** A file beside the installation's live entries has none of them for a temporary. */
  lemma LiveIsNoTemporary(path: Path, root: Path, live: Path)
    requires Beside(path, root) && root < live && live[|root|] in LIVE
    ensures !IsTemporaryOf(path, live)
  {
    if path != [] { LiveNamesAreNoTemporaries(path[|path| - 1]); }
    if IsTemporaryOf(path, live) && |live| > |root| + 1 {
      var parent := path[..|path| - 1];
      assert parent == live[..|live| - 1];
      PrefixAt(parent, path, live, |root|);
    }
  }

  lemma PrefixAt(parent: Path, path: Path, live: Path, k: nat)
    requires parent <= path && parent <= live && k < |parent|
    ensures path[..k] == live[..k] && path[k] == live[k]
  {
  }

  lemma ScratchIsNoTemporary(path: Path, scratch: Path, prepared: Path)
    requires !Overlap(path, scratch) && scratch < prepared
    ensures !Overlap(prepared, path) && !IsTemporaryOf(path, prepared)
  {
    assert prepared == scratch + prepared[|scratch|..];
    DisjointFromBelow(path, scratch, prepared[|scratch|..]);
    var parent := prepared[..|prepared| - 1];
    assert scratch <= parent;
    assert IsTemporaryOf(path, prepared) ==> parent <= path;
  }

  /** Where the installation, its scratch space, the configuration and the journal may lie, and that random
      names are not taken. */
  ghost predicate Located(files: FileSystem, site: Site, configPath: Path, scopeId: string, id: nat) {
    |site.root| > 1 && WellFormed(files) &&
    site.scratch != [] && PayloadInScratch(site) && Beside(site.scratch, site.root) &&
    configPath != [] && (configPath in files ==> files[configPath].File?) &&
    Beside(configPath, site.root) && !Overlap(configPath, site.scratch) &&
    site.root != JournalPath(site.root, scopeId) && !Overlap(JournalPath(site.root, scopeId), site.scratch) &&
    !IsTemporaryOf(JournalPath(site.root, scopeId), configPath) &&
    var workRoot := WorkRoot(site.root, scopeId, id);
    id != EMPTY_ID && workRoot != site.root && Subtree(files, workRoot) == NOTHING &&
    !Overlap(configPath, workRoot) && !IsTemporaryOf(configPath, workRoot)
  }

  /** Everything to be published has been prepared, and nothing of another kind is in its place. */
  predicate Staged(files: FileSystem, entries: seq<PublishEntry>) {
    forall i | 0 <= i < |entries| :: Exists(files, entries[i].prepared, entries[i].kind) &&
      !ExistsAsOtherKind(files, entries[i].destination, entries[i].kind)
  }

  ghost predicate Placeable(e: PublishEntry, site: Site) {
    site.scratch < e.prepared && site.root < e.destination && e.destination[|site.root|] in LIVE
  }

  lemma EntriesArePlaceable(d: Disk, r: Request, site: Site)
    requires Admitted(r) && PayloadInScratch(site)
    ensures var entries := Entries(Decide(d, r), r, site);
      PairwiseDisjoint(PreparedOf(entries)) && PairwiseDisjoint(DestinationsOf(entries)) &&
      forall i | 0 <= i < |entries| :: Placeable(entries[i], site)
  {
    var c, entries := Decide(d, r), Entries(Decide(d, r), r, site);
    PayloadIsStaged(d, r);
    PreparedApart(c, r, site);
    DestinationsAreDisjoint(c, r, site.root);
    EntryLists(c, r, site);
    forall i | 0 <= i < |entries| ensures Placeable(entries[i], site) {
      assert DestinationsOf(entries)[i] == entries[i].destination;
    }
  }

  lemma EntriesApart(entries: seq<PublishEntry>, site: Site)
    requires PairwiseDisjoint(PreparedOf(entries)) && PairwiseDisjoint(DestinationsOf(entries))
    requires Beside(site.scratch, site.root) && forall i | 0 <= i < |entries| :: Placeable(entries[i], site)
    ensures PairwiseDisjoint(AllPaths(entries))
    ensures forall i, j | 0 <= i < |entries| && 0 <= j < |entries| ::
      !Overlap(entries[i].prepared, entries[j].destination)
  {
    forall i, j | 0 <= i < |entries| && 0 <= j < |entries|
      ensures !Overlap(entries[i].prepared, entries[j].destination)
    {
      assert Placeable(entries[i], site) && Placeable(entries[j], site);
      BesideIsApart(site.scratch, site.root, entries[j].destination);
      var below := entries[i].prepared[|site.scratch|..];
      assert entries[i].prepared == site.scratch + below;
      DisjointFromBelow(entries[j].destination, site.scratch, below);
    }
    PathsOf(entries);
  }

  lemma PathsOf(entries: seq<PublishEntry>)
    ensures AllPaths(entries) == PreparedOf(entries) + DestinationsOf(entries)
  {
  }

  /** The bridge to the transaction: a plan that is published is one the transaction accepts and recovers, of
      between 1 and 8 entries, with nothing to refuse and nothing in its own way. */
  lemma PlanMeetsTheTransaction(d: Disk, r: Request, files: FileSystem, site: Site, configPath: Path,
                                scopeId: string, id: nat)
    requires Admitted(r) && !NothingToDo(Decide(d, r))
    requires Located(files, site, configPath, scopeId, id) && Staged(files, Entries(Decide(d, r), r, site))
    ensures var entries := Entries(Decide(d, r), r, site);
      1 <= |entries| <= 8 && Acceptable(files, site.root, entries) &&
      Beginnable(files, configPath, site.root, scopeId, id, entries)
  {
    var entries := Entries(Decide(d, r), r, site);
    PlanIsPublishable(d, r, site.root);
    EntryLists(Decide(d, r), r, site);
    assert |entries| == |DestinationsOf(entries)|;
    EntriesArePlaceable(d, r, site);
    EntriesApart(entries, site);
    PlanIsAcceptable(files, entries, site);
    OwnFilesOf(entries, site, configPath, scopeId);
  }

  lemma PlanIsAcceptable(files: FileSystem, entries: seq<PublishEntry>, site: Site)
    requires |site.root| > 1 && Staged(files, entries)
    requires PairwiseDisjoint(PreparedOf(entries)) && PairwiseDisjoint(DestinationsOf(entries))
    requires forall i | 0 <= i < |entries| :: Placeable(entries[i], site)
    requires forall i, j | 0 <= i < |entries| && 0 <= j < |entries| ::
      !Overlap(entries[i].prepared, entries[j].destination)
    ensures Acceptable(files, site.root, entries)
  {
    forall i | 0 <= i < |entries| ensures EntryAcceptable(files, site.root, entries[i]) {
      assert Placeable(entries[i], site);
    }
    forall i, j | 0 <= j < i < |entries| ensures PairAcceptable(entries[i], entries[j]) {
      assert !Overlap(PreparedOf(entries)[i], PreparedOf(entries)[j]);
      assert !Overlap(DestinationsOf(entries)[i], DestinationsOf(entries)[j]);
    }
  }

  lemma OwnFilesOf(entries: seq<PublishEntry>, site: Site, configPath: Path, scopeId: string)
    requires |site.root| > 1 && forall i | 0 <= i < |entries| :: Placeable(entries[i], site)
    requires Beside(configPath, site.root) && !Overlap(configPath, site.scratch)
    requires site.root != JournalPath(site.root, scopeId) && !Overlap(JournalPath(site.root, scopeId), site.scratch)
    ensures FileOfItsOwn(configPath, entries) && FileOfItsOwn(JournalPath(site.root, scopeId), entries)
  {
    var journalPath := JournalPath(site.root, scopeId);
    forall i | 0 <= i < |entries|
      ensures !Overlap(entries[i].prepared, configPath) && !Overlap(entries[i].destination, configPath)
      ensures !IsTemporaryOf(configPath, entries[i].prepared) && !IsTemporaryOf(configPath, entries[i].destination)
      ensures !Overlap(entries[i].prepared, journalPath) && !Overlap(entries[i].destination, journalPath)
      ensures !IsTemporaryOf(journalPath, entries[i].prepared) && !IsTemporaryOf(journalPath, entries[i].destination)
    {
      assert Placeable(entries[i], site);
      ScratchIsNoTemporary(configPath, site.scratch, entries[i].prepared);
      ScratchIsNoTemporary(journalPath, site.scratch, entries[i].prepared);
      BesideIsApart(configPath, site.root, entries[i].destination);
      BesideIsApart(journalPath, site.root, entries[i].destination);
      LiveIsNoTemporary(configPath, site.root, entries[i].destination);
      LiveIsNoTemporary(journalPath, site.root, entries[i].destination);
    }
  }

  /** Publishes, records and writes the configuration if there is a root to record, and commits. */
  function Attempts(r: Request, config: seq<bv8>): seq<Attempt> {
    [Attempt(Publish, false)] +
    (if CanonicalRoot(r).Some? then [Attempt(RecordConfig, false), Attempt(WriteConfig(config), false)] else []) +
    [Attempt(Commit, false)]
  }

  lemma AttemptsAreInOrder(r: Request, config: seq<bv8>)
    ensures RecordsBeforeWriting(Attempts(r, config)) && CommitsWhatItPublished(Attempts(r, config))
    ensures Orderly(Attempts(r, config))
  {
    var attempts := Attempts(r, config);
    if CanonicalRoot(r).Some? { assert attempts[..2][1] == Attempt(RecordConfig, false); }
    assert forall i | 0 <= i < |attempts| :: attempts[i] != Attempt(Publish, true);
  }

  /** A publication that came to its commit has made all its calls, so that the configuration is the one it
      wrote, if it had a root to record. */
  lemma CommittedMeansAllCalled(r: Request, config: seq<bv8>, outcomes: seq<InstallMachine.Status>, was: Option<Node>)
    requires Performed(Attempts(r, config), outcomes) && outcomes != []
    requires Attempts(r, config)[|outcomes| - 1].call.Commit?
    ensures ConfigAfter(was, Attempts(r, config), outcomes) == NewConfig(r, config, was)
  {
    var attempts := Attempts(r, config);
    assert |outcomes| == |attempts|;
    assert forall i | 0 <= i < |attempts| - 1 :: Continues(attempts[i], outcomes[i]) && outcomes[i].Done?;
    var first, two := outcomes[..1], outcomes[..|outcomes| - 1];
    assert ConfigAfter(was, attempts, first) == was by { assert first[..0] == []; }
    if CanonicalRoot(r).Some? {
      assert two[..2] == outcomes[..2] && outcomes[..2][..1] == first;
      assert ConfigAfter(was, attempts, outcomes[..2]) == was;
      assert ConfigAfter(was, attempts, two) == Some(File(config));
    } else {
      assert two == first;
    }
  }

  function NewConfig(r: Request, config: seq<bv8>, was: Option<Node>): Option<Node> {
    if CanonicalRoot(r).Some? then Some(File(config)) else was
  }

  // ------------------------------------------------------------------------- what ends up where

  ghost predicate SameAt(before: FileSystem, after: FileSystem, path: Path) {
    (path in after <==> path in before) && (path in before ==> after[path] == before[path])
  }

  /** Everything below the path is as it was. */
  ghost predicate SameBelow(before: FileSystem, after: FileSystem, path: Path) {
    forall below: Path | below != [] :: SameAt(before, after, path + below)
  }

  predicate IsSupport(name: string) {
    name == "wii_bootstrap" || name == "dsp_coef.bin" || name == "initial_pipeline_cache.db"
  }

  /** A rebuilt product is the whole output of its build; of one that is kept, the support files are replaced, or
      nothing is. */
  ghost predicate ProductPublished(before: FileSystem, after: FileSystem, product: Path, rebuilt: bool, output: Path,
                                   copied: bool, repaired: Path) {
    if rebuilt then Subtree(after, product) == Subtree(before, output)
    else if copied then
      (forall name | IsSupport(name) :: Subtree(after, product + [name]) == Subtree(before, repaired + [name])) &&
      (forall below: Path | below != [] && !IsSupport(below[0]) :: SameAt(before, after, product + below))
    else Subtree(after, product) == Subtree(before, product)
  }

  /** Every product, the payload and the state come from what was prepared for them, or are as they were. */
  ghost predicate PublishedAsDecided(c: Decision, r: Request, site: Site, before: FileSystem, after: FileSystem) {
    ProductPublished(before, after, site.root + ["Base"], c.rebuildBase, site.scratch + ["base-output"],
                     c.syncBaseAssets, site.scratch + ["runtime-asset-repair", "Base"]) &&
    ProductPublished(before, after, site.root + ["RetroRewind"], c.rebuildRetro, site.scratch + ["retro-output"],
                     c.syncRetroAssets, site.scratch + ["runtime-asset-repair", "RetroRewind"]) &&
    Subtree(after, site.root + ["BuildWorkspace", "Assets", "OfflinePayload"]) ==
      (if c.syncPayload then Subtree(before, site.payload)
       else if c.rebuildRetro && r.mode.SkippedMode? then EMPTY_DIRECTORY
       else Subtree(before, site.root + ["BuildWorkspace", "Assets", "OfflinePayload"])) &&
    Subtree(after, site.root + ["install-state.json"]) ==
      (if c.rebuildBase || c.rebuildRetro || (r.inputs.Some? && r.canonicalRoot.Some?)
       then Subtree(before, site.scratch + ["install-state.json"])
       else Subtree(before, site.root + ["install-state.json"]))
  }

  ghost const EMPTY_DIRECTORY: Tree := imap[[] := Dir]

  /** Every product, the payload and the state are as they were; a directory may be there for support files. */
  ghost predicate NothingPublished(c: Decision, site: Site, before: FileSystem, after: FileSystem) {
    SameBelow(before, after, site.root + ["Base"]) && SameBelow(before, after, site.root + ["RetroRewind"]) &&
    (!c.syncBaseAssets ==> SameAt(before, after, site.root + ["Base"])) &&
    (!c.syncRetroAssets ==> SameAt(before, after, site.root + ["RetroRewind"])) &&
    Subtree(after, PayloadPath(site.root)) == Subtree(before, PayloadPath(site.root)) &&
    Subtree(after, site.root + ["install-state.json"]) == Subtree(before, site.root + ["install-state.json"])
  }

  /** At or below something that publications replace. */
  predicate Replaceable(root: Path, path: Path) {
    root + ["Base"] <= path || root + ["RetroRewind"] <= path || PayloadPath(root) <= path ||
    root + ["install-state.json"] <= path
  }

  /** Apart from that, the scratch space, the work directory and the configuration, at most a directory or the
      temporary of an unfinished write has appeared. */
  ghost predicate RestUntouched(site: Site, configPath: Path, scopeId: string, id: nat, before: FileSystem,
                                after: FileSystem)
    requires |site.root| > 1
  {
    forall path: Path |
      !Replaceable(site.root, path) && !(site.scratch <= path) && !(configPath <= path) &&
      !(WorkRoot(site.root, scopeId, id) <= path) ::
      (path in before ==> path in after && after[path] == before[path]) &&
      (path in after && path !in before ==>
         after[path].Dir? || IsTemporaryOf(configPath, path) || IsTemporaryOf(JournalPath(site.root, scopeId), path))
  }

  /** Where the entries go, by the name of the installation's entry they go through. */
  ghost predicate GoesBy(c: Decision, r: Request, root: Path, d: Path) {
    root < d &&
    match d[|root|] {
      case "Base" => ProductPlace(c.rebuildBase, c.syncBaseAssets, root + ["Base"], d)
      case "RetroRewind" => ProductPlace(c.rebuildRetro, c.syncRetroAssets, root + ["RetroRewind"], d)
      case "BuildWorkspace" => (c.syncPayload || (c.rebuildRetro && r.mode.SkippedMode?)) && d == PayloadPath(root)
      case _ => PublishesState(c, r) && d == root + ["install-state.json"]
    }
  }

  predicate ProductPlace(rebuilt: bool, copied: bool, product: Path, d: Path) {
    (rebuilt && d == product) ||
    (copied && |d| == |product| + 1 && product <= d && IsSupport(d[|product|]))
  }

  lemma ProductPartGoesBy(c: Decision, r: Request, site: Site, e: PublishEntry)
    requires e in ProductEntries(c, site)
    ensures GoesBy(c, r, site.root, e.destination)
  {
    var root := site.root;
    if e in AssetParts(c.syncBaseAssets, site.scratch + ["runtime-asset-repair", "Base"], root + ["Base"]) {
      assert e.destination[|root|] == "Base" && IsSupport(e.destination[|root| + 1]);
    } else if e in AssetParts(c.syncRetroAssets, site.scratch + ["runtime-asset-repair", "RetroRewind"],
                              root + ["RetroRewind"]) {
      assert e.destination[|root|] == "RetroRewind" && IsSupport(e.destination[|root| + 1]);
    }
  }

  lemma PartGoesBy(c: Decision, r: Request, site: Site, e: PublishEntry)
    requires e in Entries(c, r, site)
    ensures GoesBy(c, r, site.root, e.destination)
  {
    if e in ProductEntries(c, site) {
      ProductPartGoesBy(c, r, site, e);
    } else if e in PayloadEntries(c.syncPayload, c.rebuildRetro && r.mode.SkippedMode?, site) {
      assert e.destination[|site.root|] == "BuildWorkspace";
    }
  }

  /** The entries that are there, one by one. */
  lemma PartsAreThere(c: Decision, r: Request, site: Site)
    ensures var root, scratch, entries := site.root, site.scratch, Entries(c, r, site);
      (c.rebuildBase ==> PublishEntry(scratch + ["base-output"], root + ["Base"], Directory) in entries) &&
      (c.rebuildRetro ==> PublishEntry(scratch + ["retro-output"], root + ["RetroRewind"], Directory) in entries) &&
      (c.syncPayload ==> PublishEntry(site.payload, PayloadPath(root), Directory) in entries) &&
      (c.rebuildRetro && r.mode.SkippedMode? ==>
         PublishEntry(scratch + ["retro-wfc-payload-removed"], PayloadPath(root), Directory) in entries) &&
      (PublishesState(c, r) ==>
         PublishEntry(scratch + ["install-state.json"], root + ["install-state.json"], RegularFile) in entries)
  {
  }

  lemma SupportIsThere(c: Decision, r: Request, site: Site, name: string)
    requires IsSupport(name)
    ensures var root, repair, entries := site.root, site.scratch + ["runtime-asset-repair"], Entries(c, r, site);
      (c.syncBaseAssets ==> exists kind ::
         PublishEntry(repair + ["Base"] + [name], root + ["Base"] + [name], kind) in entries) &&
      (c.syncRetroAssets ==> exists kind ::
         PublishEntry(repair + ["RetroRewind"] + [name], root + ["RetroRewind"] + [name], kind) in entries)
  {
    var repair := site.scratch + ["runtime-asset-repair"];
    var kind := if name == "wii_bootstrap" then Directory else RegularFile;
    assert repair + ["Base"] == site.scratch + ["runtime-asset-repair", "Base"];
    assert repair + ["RetroRewind"] == site.scratch + ["runtime-asset-repair", "RetroRewind"];
    assert c.syncBaseAssets ==>
      PublishEntry(repair + ["Base"] + [name], site.root + ["Base"] + [name], kind) in
      AssetParts(c.syncBaseAssets, repair + ["Base"], site.root + ["Base"]);
    assert c.syncRetroAssets ==>
      PublishEntry(repair + ["RetroRewind"] + [name], site.root + ["RetroRewind"] + [name], kind) in
      AssetParts(c.syncRetroAssets, repair + ["RetroRewind"], site.root + ["RetroRewind"]);
  }

  /** A transaction that has ended, with the disk before it and after. */
  datatype Ending = Ending(entries: seq<PublishEntry>, plan: Plan, before: FileSystem, after: FileSystem,
                           committed: bool, site: Site) {
    /** Its entries replaced, or none of them, and nothing else changed. */
    ghost predicate Left() {
      RestKept(plan, after) && plan.begun == before && |plan.Entries()| == |entries| &&
      forall i | 0 <= i < |entries| ::
        plan.Entries()[i].prepared == entries[i].prepared && plan.Entries()[i].destination == entries[i].destination &&
        Subtree(after, entries[i].destination) ==
          Subtree(before, if committed then entries[i].prepared else entries[i].destination)
    }

    /** Where its paths lie. */
    ghost predicate Lies() {
      var root, workRoot := site.root, plan.journal.workRoot;
      |root| > 1 && |workRoot| == |root| && workRoot != root &&
      Beside(plan.configPath, root) && Beside(plan.journalPath, root) && Beside(site.scratch, root) &&
      forall i | 0 <= i < |entries| :: site.scratch < entries[i].prepared && root < entries[i].destination
    }

    ghost predicate Valid() { Left() && Lies() }

    /** No entry's destination is above, at or below the path, which is within the live part of the installation. */
    ghost predicate Unnamed(path: Path) {
      site.root < path && path[|site.root|] in LIVE &&
      forall i | 0 <= i < |entries| :: !Overlap(entries[i].destination, path)
    }

    /** The entries through one of the installation's entries are those of this product. */
    ghost predicate OfProduct(name: string, rebuilt: bool, copied: bool) {
      name in LIVE && |site.root| > 1 &&
      forall i | 0 <= i < |entries| ::
        site.root < entries[i].destination &&
        (entries[i].destination[|site.root|] == name ==>
           ProductPlace(rebuilt, copied, site.root + [name], entries[i].destination))
    }

    lemma EntryIsLeft(e: PublishEntry)
      requires Left() && e in entries
      ensures Subtree(after, e.destination) == Subtree(before, if committed then e.prepared else e.destination)
    {
    }

    lemma UnnamedIsForeign(path: Path)
      requires Valid() && Unnamed(path)
      ensures Foreign(plan, path)
    {
      BesideIsApart(site.scratch, site.root, path);
      BesideIsApart(plan.configPath, site.root, path);
      assert path[..|site.root|] == site.root;
      forall i | 0 <= i < |plan.Entries()|
        ensures !(plan.Entries()[i].destination <= path) && !(plan.Entries()[i].prepared <= path)
      {
        assert !Overlap(entries[i].destination, path);
        assert site.scratch < entries[i].prepared;
      }
    }

    lemma UnnamedIsSame(path: Path)
      requires Valid() && Unnamed(path)
      ensures SameAt(before, after, path)
    {
      UnnamedIsForeign(path);
      BesideIsApart(plan.configPath, site.root, path);
      LiveIsNoTemporary(plan.configPath, site.root, path);
      LiveIsNoTemporary(plan.journalPath, site.root, path);
      forall i | 0 <= i < |plan.Entries()| ensures !(path < plan.Entries()[i].destination) {
        assert !Overlap(entries[i].destination, path);
      }
      assert path in after && path !in before ==> !OnTheWay(plan, path);
    }

    lemma OtherFilesAreUnnamed(name: string, rebuilt: bool, copied: bool, below: Path)
      requires Valid() && OfProduct(name, rebuilt, copied) && !rebuilt
      requires copied ==> below != [] && !IsSupport(below[0])
      ensures SameAt(before, after, site.root + [name] + below)
    {
      var path := site.root + [name] + below;
      forall i | 0 <= i < |entries| ensures !Overlap(entries[i].destination, path) {
        var d := entries[i].destination;
        assert path[|site.root|] == name;
        assert copied ==> path[|site.root| + 1] == below[0];
      }
      UnnamedIsSame(path);
    }

    /** Nothing goes through this entry of the installation, so that everything there is as it was. */
    lemma UntouchedPlace(place: Path)
      requires Valid() && site.root < place && place[|site.root|] in LIVE
      requires forall i | 0 <= i < |entries| :: entries[i].destination[|site.root|] != place[|site.root|]
      ensures Subtree(after, place) == Subtree(before, place)
    {
      forall below: Path
        ensures place + below in after <==> place + below in before
        ensures place + below in before ==> after[place + below] == before[place + below]
      {
        forall i | 0 <= i < |entries| ensures !Overlap(entries[i].destination, place + below) {
          assert (place + below)[|site.root|] == place[|site.root|];
        }
        UnnamedIsSame(place + below);
      }
    }

    lemma SupportIsLeft(product: Path, repaired: Path, name: string)
      requires Left() && exists kind :: PublishEntry(repaired + [name], product + [name], kind) in entries
      ensures Subtree(after, product + [name]) == Subtree(before, (if committed then repaired else product) + [name])
    {
      var kind :| PublishEntry(repaired + [name], product + [name], kind) in entries;
      EntryIsLeft(PublishEntry(repaired + [name], product + [name], kind));
    }

    lemma SameTreeSameBelow(path: Path, below: Path)
      requires Subtree(after, path) == Subtree(before, path)
      ensures SameAt(before, after, path + below)
    {
      assert path + below in after <==> below in Subtree(after, path);
      assert path + below in before <==> below in Subtree(before, path);
      assert path + below in before ==> Subtree(after, path)[below] == Subtree(before, path)[below];
    }

    lemma SameTreeSameAll(path: Path)
      requires Subtree(after, path) == Subtree(before, path)
      ensures SameAt(before, after, path) && SameBelow(before, after, path)
    {
      forall below: Path ensures SameAt(before, after, path + below) { SameTreeSameBelow(path, below); }
      assert path + [] == path;
    }

    lemma CopiedProductSettles(name: string, repaired: Path)
      requires Valid() && OfProduct(name, false, true)
      requires forall s | IsSupport(s) ::
        exists kind :: PublishEntry(repaired + [s], site.root + [name] + [s], kind) in entries
      ensures committed ==> ProductPublished(before, after, site.root + [name], false, [], true, repaired)
      ensures !committed ==> SameBelow(before, after, site.root + [name])
    {
      var product := site.root + [name];
      forall s | IsSupport(s)
        ensures Subtree(after, product + [s]) == Subtree(before, (if committed then repaired else product) + [s])
      {
        SupportIsLeft(product, repaired, s);
      }
      forall below: Path | below != [] && (!committed || !IsSupport(below[0]))
        ensures SameAt(before, after, product + below)
      {
        if IsSupport(below[0]) {
          SameTreeSameBelow(product + [below[0]], below[1..]);
          assert product + [below[0]] + below[1..] == product + below;
        } else {
          OtherFilesAreUnnamed(name, false, true, below);
        }
      }
    }

    lemma ProductSettles(name: string, rebuilt: bool, output: Path, copied: bool, repaired: Path)
      requires Valid() && OfProduct(name, rebuilt, copied) && !(rebuilt && copied)
      requires rebuilt ==> PublishEntry(output, site.root + [name], Directory) in entries
      requires copied ==> forall s | IsSupport(s) ::
        exists kind :: PublishEntry(repaired + [s], site.root + [name] + [s], kind) in entries
      ensures committed ==> ProductPublished(before, after, site.root + [name], rebuilt, output, copied, repaired)
      ensures !committed ==> SameBelow(before, after, site.root + [name]) &&
                             (!copied ==> SameAt(before, after, site.root + [name]))
    {
      var product := site.root + [name];
      if copied {
        CopiedProductSettles(name, repaired);
      } else {
        if rebuilt { EntryIsLeft(PublishEntry(output, product, Directory)); }
        else { UntouchedPlace(product); }
        if !committed { SameTreeSameAll(product); }
      }
    }

    lemma RestSettles(configPath: Path, scopeId: string, id: nat)
      requires Valid() && forall i | 0 <= i < |entries| :: Replaceable(site.root, entries[i].destination)
      requires plan.configPath == configPath && plan.journalPath == JournalPath(site.root, scopeId)
      requires plan.journal.workRoot == WorkRoot(site.root, scopeId, id)
      ensures RestUntouched(site, configPath, scopeId, id, before, after)
    {
      forall path: Path |
        !Replaceable(site.root, path) && !(site.scratch <= path) && !(configPath <= path) &&
        !(plan.journal.workRoot <= path)
        ensures Foreign(plan, path)
      {
        forall i | 0 <= i < |plan.Entries()|
          ensures !(plan.Entries()[i].destination <= path) && !(plan.Entries()[i].prepared <= path)
        {
          assert Replaceable(site.root, entries[i].destination);
          assert site.scratch < entries[i].prepared;
        }
      }
    }
  }

  /** A publication's entries go where the decision says. */
  lemma EntriesGoBy(c: Decision, r: Request, site: Site)
    ensures forall i | 0 <= i < |Entries(c, r, site)| :: GoesBy(c, r, site.root, Entries(c, r, site)[i].destination)
  {
    forall i | 0 <= i < |Entries(c, r, site)| ensures GoesBy(c, r, site.root, Entries(c, r, site)[i].destination) {
      PartGoesBy(c, r, site, Entries(c, r, site)[i]);
    }
  }

  lemma ProductsSettle(c: Decision, r: Request, e: Ending)
    requires e.Valid() && e.entries == Entries(c, r, e.site)
    requires !(c.rebuildBase && c.syncBaseAssets) && !(c.rebuildRetro && c.syncRetroAssets)
    ensures var root, repair := e.site.root, e.site.scratch + ["runtime-asset-repair"];
      if e.committed then
        ProductPublished(e.before, e.after, root + ["Base"], c.rebuildBase, e.site.scratch + ["base-output"],
                         c.syncBaseAssets, repair + ["Base"]) &&
        ProductPublished(e.before, e.after, root + ["RetroRewind"], c.rebuildRetro, e.site.scratch + ["retro-output"],
                         c.syncRetroAssets, repair + ["RetroRewind"])
      else
        SameBelow(e.before, e.after, root + ["Base"]) && SameBelow(e.before, e.after, root + ["RetroRewind"]) &&
        (!c.syncBaseAssets ==> SameAt(e.before, e.after, root + ["Base"])) &&
        (!c.syncRetroAssets ==> SameAt(e.before, e.after, root + ["RetroRewind"]))
  {
    var repair := e.site.scratch + ["runtime-asset-repair"];
    EntriesGoBy(c, r, e.site);
    PartsAreThere(c, r, e.site);
    forall name | IsSupport(name)
      ensures c.syncBaseAssets ==> exists kind ::
        PublishEntry(repair + ["Base"] + [name], e.site.root + ["Base"] + [name], kind) in e.entries
      ensures c.syncRetroAssets ==> exists kind ::
        PublishEntry(repair + ["RetroRewind"] + [name], e.site.root + ["RetroRewind"] + [name], kind) in e.entries
    {
      SupportIsThere(c, r, e.site, name);
    }
    e.ProductSettles("Base", c.rebuildBase, e.site.scratch + ["base-output"], c.syncBaseAssets, repair + ["Base"]);
    e.ProductSettles("RetroRewind", c.rebuildRetro, e.site.scratch + ["retro-output"], c.syncRetroAssets,
                     repair + ["RetroRewind"]);
  }

  lemma PayloadSettles(c: Decision, r: Request, e: Ending)
    requires e.Valid() && e.entries == Entries(c, r, e.site)
    requires !(c.syncPayload && c.rebuildRetro && r.mode.SkippedMode?)
    ensures Subtree(e.after, PayloadPath(e.site.root)) ==
      Subtree(e.before,
              if !e.committed then PayloadPath(e.site.root)
              else if c.syncPayload then e.site.payload
              else if c.rebuildRetro && r.mode.SkippedMode? then e.site.scratch + ["retro-wfc-payload-removed"]
              else PayloadPath(e.site.root))
  {
    var place := PayloadPath(e.site.root);
    EntriesGoBy(c, r, e.site);
    PartsAreThere(c, r, e.site);
    if c.syncPayload {
      e.EntryIsLeft(PublishEntry(e.site.payload, place, Directory));
    } else if c.rebuildRetro && r.mode.SkippedMode? {
      e.EntryIsLeft(PublishEntry(e.site.scratch + ["retro-wfc-payload-removed"], place, Directory));
    } else {
      assert place[|e.site.root|] == "BuildWorkspace";
      e.UntouchedPlace(place);
    }
  }

  lemma StateSettles(c: Decision, r: Request, e: Ending)
    requires e.Valid() && e.entries == Entries(c, r, e.site)
    ensures Subtree(e.after, e.site.root + ["install-state.json"]) ==
      Subtree(e.before, (if e.committed && PublishesState(c, r) then e.site.scratch else e.site.root) +
                        ["install-state.json"])
  {
    var place := e.site.root + ["install-state.json"];
    EntriesGoBy(c, r, e.site);
    PartsAreThere(c, r, e.site);
    if PublishesState(c, r) {
      e.EntryIsLeft(PublishEntry(e.site.scratch + ["install-state.json"], place, RegularFile));
    } else {
      assert place[|e.site.root|] == "install-state.json";
      forall i | 0 <= i < |e.entries| ensures e.entries[i].destination[|e.site.root|] != "install-state.json" {
        assert GoesBy(c, r, e.site.root, e.entries[i].destination);
      }
      e.UntouchedPlace(place);
    }
  }

  lemma DestinationsAreReplaceable(c: Decision, r: Request, site: Site)
    ensures forall i | 0 <= i < |Entries(c, r, site)| :: Replaceable(site.root, Entries(c, r, site)[i].destination)
  {
    EntriesGoBy(c, r, site);
    forall i | 0 <= i < |Entries(c, r, site)|
      ensures Replaceable(site.root, Entries(c, r, site)[i].destination)
    {
      assert GoesBy(c, r, site.root, Entries(c, r, site)[i].destination);
    }
  }

  /** The directory that replaces a payload no longer wanted is empty. */
  ghost predicate RemovalPrepared(c: Decision, r: Request, site: Site, files: FileSystem) {
    c.rebuildRetro && r.mode.SkippedMode? ==>
      Subtree(files, site.scratch + ["retro-wfc-payload-removed"]) == EMPTY_DIRECTORY
  }

  /** No file stands where the installation has directories, nor on the way to the configuration or the backups. */
  ghost predicate Accessible(files: FileSystem, root: Path, configPath: Path, scopeId: string, id: nat)
    requires |root| > 1
  {
    !ParentsBlocked(files, configPath) && !ParentsBlocked(files, WorkRoot(root, scopeId, id) + ["backup", "0000"]) &&
    !ParentsBlocked(files, root + ["Base", "wii_bootstrap"]) && !ParentsBlocked(files, PayloadPath(root)) &&
    !ParentsBlocked(files, root + ["RetroRewind", "wii_bootstrap"])
  }

  lemma SameWay(files: FileSystem, a: Path, b: Path)
    requires !ParentsBlocked(files, a) && a != [] && |b| <= |a| && b != [] && b[..|b| - 1] <= a[..|a| - 1]
    ensures !ParentsBlocked(files, b)
  {
    forall n | 1 <= n < |b| ensures b[..n] == a[..n] {
      assert b[..n] == b[..|b| - 1][..n] == a[..|b| - 1][..n];
      assert a[..|b| - 1] == a[..|a| - 1][..|b| - 1];
    }
  }

  lemma DestinationIsAccessible(c: Decision, r: Request, root: Path, files: FileSystem, d: Path)
    requires root != [] && GoesBy(c, r, root, d)
    requires !ParentsBlocked(files, root + ["Base", "wii_bootstrap"]) && !ParentsBlocked(files, PayloadPath(root))
    requires !ParentsBlocked(files, root + ["RetroRewind", "wii_bootstrap"])
    ensures !ParentsBlocked(files, d)
  {
    var base, retro := root + ["Base", "wii_bootstrap"], root + ["RetroRewind", "wii_bootstrap"];
    assert base[..|base| - 1] == root + ["Base"] && retro[..|retro| - 1] == root + ["RetroRewind"];
    if d != PayloadPath(root) {
      assert d[..|root|] == root && (|d| == |root| + 1 || d[..|root| + 1] == root + [d[|root|]]);
      SameWay(files, if d[|root|] == "RetroRewind" then retro else base, d);
    }
  }

  lemma AccessibleIsUnblocked(c: Decision, r: Request, site: Site, files: FileSystem, configPath: Path, scopeId: string,
                              id: nat)
    requires |site.root| > 1 && Accessible(files, site.root, configPath, scopeId, id)
    ensures Unblocked(files, configPath, WorkRoot(site.root, scopeId, id), Entries(c, r, site))
  {
    EntriesGoBy(c, r, site);
    forall i | 0 <= i < |Entries(c, r, site)| ensures !ParentsBlocked(files, Entries(c, r, site)[i].destination) {
      DestinationIsAccessible(c, r, site.root, files, Entries(c, r, site)[i].destination);
    }
  }

  /** The outcome of a publication on the installation and on the rest of the disk. */
  ghost predicate EndsAllOrNothing(c: Decision, r: Request, site: Site, before: FileSystem, after: FileSystem,
                                   committed: bool) {
    if committed then PublishedAsDecided(c, r, site, before, after) else NothingPublished(c, site, before, after)
  }

  lemma PublicationSettles(d: Disk, r: Request, e: Ending)
    requires Admitted(r) && e.Valid() && e.entries == Entries(Decide(d, r), r, e.site)
    requires RemovalPrepared(Decide(d, r), r, e.site, e.before)
    ensures EndsAllOrNothing(Decide(d, r), r, e.site, e.before, e.after, e.committed)
  {
    var c := Decide(d, r);
    PayloadIsStaged(d, r);
    ProductsSettle(c, r, e);
    PayloadSettles(c, r, e);
    StateSettles(c, r, e);
    var repair := e.site.scratch + ["runtime-asset-repair"];
    assert repair + ["Base"] == e.site.scratch + ["runtime-asset-repair", "Base"];
    assert repair + ["RetroRewind"] == e.site.scratch + ["runtime-asset-repair", "RetroRewind"];
  }

  /** The calls of a publication, made of these entries. */
  method Transact(m: Machine, r: Request, site: Site, id: nat, entries: seq<PublishEntry>, config: seq<bv8>,
                  boots: seq<seq<Fault>>)
    returns (s: InstallMachine.Status, ghost e: Ending)
    requires |site.root| > 1 && m.journal == None && boots != [] && 1 <= |entries| <= MAXIMUM_ENTRIES
    requires Beginnable(m.files, m.configPath, site.root, m.scopeId, id, entries)
    requires Acceptable(m.files, site.root, entries)
    modifies m
    ensures e == Ending(entries, PlanFor(old(m.files), m.configPath, site.root, m.scopeId, id, entries), old(m.files),
                        m.files, m.committed, site)
    ensures s.Done? ==> e.Left()
    ensures s.Done? ==>
      ConfigAt(m.files, m.configPath) ==
        if m.committed then NewConfig(r, config, ConfigAt(old(m.files), m.configPath))
        else ConfigAt(old(m.files), m.configPath)
    ensures Faultless(boots[|boots| - 1]) ==> s.Done?
    ensures s.Done? ==> m.journal == None
    ensures Faultless(old(m.faults)) &&
            Unblocked(old(m.files), m.configPath, WorkRoot(site.root, m.scopeId, id), entries) ==>
              s.Done? && m.committed
  {
    AttemptsAreInOrder(r, config);
    ghost var before := m.files;
    ghost var plan, outcomes;
    s, plan, outcomes := AllOrNothing(m, site.root, id, entries, Attempts(r, config), boots);
    if m.committed { CommittedMeansAllCalled(r, config, outcomes, ConfigAt(before, m.configPath)); }
    e := Ending(entries, plan, before, m.files, m.committed, site);
  }

  /** The paths of an admitted plan lie where its site says. */
  lemma EndingLies(d: Disk, r: Request, e: Ending, configPath: Path, scopeId: string, id: nat)
    requires Admitted(r) && Located(e.before, e.site, configPath, scopeId, id)
    requires e.entries == Entries(Decide(d, r), r, e.site)
    requires e.plan == PlanFor(e.before, configPath, e.site.root, scopeId, id, e.entries)
    ensures e.Lies()
  {
    EntriesArePlaceable(d, r, e.site);
    forall i | 0 <= i < |e.entries|
      ensures e.site.scratch < e.entries[i].prepared && e.site.root < e.entries[i].destination
    {
      assert Placeable(e.entries[i], e.site);
    }
  }

  lemma PublicationEnds(d: Disk, r: Request, e: Ending, configPath: Path, scopeId: string, id: nat)
    requires Admitted(r) && Located(e.before, e.site, configPath, scopeId, id)
    requires e.Left() && e.entries == Entries(Decide(d, r), r, e.site)
    requires e.plan == PlanFor(e.before, configPath, e.site.root, scopeId, id, e.entries)
    requires RemovalPrepared(Decide(d, r), r, e.site, e.before)
    ensures EndsAllOrNothing(Decide(d, r), r, e.site, e.before, e.after, e.committed)
    ensures RestUntouched(e.site, configPath, scopeId, id, e.before, e.after)
  {
    EndingLies(d, r, e, configPath, scopeId, id);
    PublicationSettles(d, r, e);
    DestinationsAreReplaceable(Decide(d, r), r, e.site);
    e.RestSettles(configPath, scopeId, id);
  }

  /** The list of what is to be published, put together step by step. */
  method CollectEntries(c: Decision, r: Request, site: Site) returns (entries: seq<PublishEntry>)
    ensures entries == Entries(c, r, site)
  {
    entries := ProductEntries(c, site);
    entries := entries + PayloadEntries(c.syncPayload, c.rebuildRetro && r.mode.SkippedMode?, site);
    if c.rebuildBase || c.rebuildRetro || CanonicalRoot(r).Some? {
      entries := entries +
        [PublishEntry(site.scratch + ["install-state.json"], site.root + ["install-state.json"], RegularFile)];
    }
  }

  lemma PublicationStarts(d: Disk, r: Request, files: FileSystem, site: Site, configPath: Path, scopeId: string, id: nat)
    requires Admitted(r) && !NothingToDo(Decide(d, r))
    requires Located(files, site, configPath, scopeId, id) && Staged(files, Entries(Decide(d, r), r, site))
    ensures var entries := Entries(Decide(d, r), r, site);
      1 <= |entries| <= 8 && Acceptable(files, site.root, entries) &&
      Beginnable(files, configPath, site.root, scopeId, id, entries) &&
      (Accessible(files, site.root, configPath, scopeId, id) ==>
         Unblocked(files, configPath, WorkRoot(site.root, scopeId, id), entries))
  {
    PlanMeetsTheTransaction(d, r, files, site, configPath, scopeId, id);
    if Accessible(files, site.root, configPath, scopeId, id) {
      AccessibleIsUnblocked(Decide(d, r), r, site, files, configPath, scopeId, id);
    }
  }

  /** A publication is all or nothing: wherever it and any number of recoveries are interrupted, once a recovery
      has completed, either each product, copied support file, payload and state that is to be published is the one
      prepared for it and the configuration is as written, or all of them and the configuration are the old ones.
      On a disk that obeys it is published. */
  method PublishProducts(m: Machine, d: Disk, r: Request, site: Site, id: nat, config: seq<bv8>, boots: seq<seq<Fault>>)
    returns (s: InstallMachine.Status)
    requires Admitted(r) && !NothingToDo(Decide(d, r)) && m.journal == None && boots != []
    requires Located(m.files, site, m.configPath, m.scopeId, id) && Staged(m.files, Entries(Decide(d, r), r, site))
    requires RemovalPrepared(Decide(d, r), r, site, m.files)
    modifies m
    ensures s.Done? ==> EndsAllOrNothing(Decide(d, r), r, site, old(m.files), m.files, m.committed)
    ensures s.Done? ==> RestUntouched(site, m.configPath, m.scopeId, id, old(m.files), m.files)
    ensures s.Done? ==>
      ConfigAt(m.files, m.configPath) ==
        if m.committed && r.inputs.Some? && r.canonicalRoot.Some? then Some(File(config))
        else ConfigAt(old(m.files), m.configPath)
    ensures Faultless(boots[|boots| - 1]) ==> s.Done? && m.journal == None
    ensures Faultless(old(m.faults)) && Accessible(old(m.files), site.root, m.configPath, m.scopeId, id) ==>
      s.Done? && m.committed
  {
    var entries := CollectEntries(Decide(d, r), r, site);
    PublicationStarts(d, r, m.files, site, m.configPath, m.scopeId, id);
    ghost var e;
    s, e := Transact(m, r, site, id, entries, config, boots);
    if s.Done? { PublicationEnds(d, r, e, m.configPath, m.scopeId, id); }
  }
}
