/** The journal an install transaction writes before its first move, and the checks that decide which
    publish entries and which journals are accepted. */
module InstallJournal {
  import opened Basics
  import opened FileTree
  import opened Paths

  const SCHEMA_VERSION := 3
  const MAXIMUM_ENTRIES := 64
  const EMPTY_ID: nat := 0

  datatype Result<+T> = Ok(value: T) | Refused(reason: Refusal)

  datatype Refusal =
    | NoEntries
    | UnfinishedTransaction
    | DestinationOutOfScope
    | PreparedOverlapsDestination
    | PreparedMissing
    | WrongEntryType
    | DestinationsOverlap
    | PreparedPathsOverlap
    | SourcesAndDestinationsOverlap
    | UnsupportedFormat
    | OtherInstallation
    | InvalidWorkDirectory
    | InvalidEntryCount
    | InvalidBackupPath
    | WrongState
    | BackupMissing
    | RecoveryAmbiguous
    | CleanupIncomplete
    | SystemRefused
    | DeviceFailed

  datatype TransactionState = Prepared | Published | Committed | RolledBack

  datatype PublishEntry = PublishEntry(prepared: Path, destination: Path, kind: Kind)

  datatype JournalEntry = JournalEntry(prepared: Path, destination: Path, backup: Path, kind: Kind,
                                       originalExisted: bool)

  datatype ConfigSnapshot = ConfigSnapshot(existed: bool, contents: seq<bv8>)

  datatype Journal = Journal(schemaVersion: int, transactionId: nat, installRoot: Path, workRoot: Path,
                             state: TransactionState, entries: seq<JournalEntry>,
                             configMutationPlanned: bool, config: ConfigSnapshot)

  // ------------------------------------------------------------------------------- work directory

  function Digits(n: nat): string {
    if n < 10 then [DIGITS[n]] else Digits(n / 10) + [DIGITS[n % 10]]
  }

  const DIGITS: string := "0123456789"

  /** The index padded with zeros to at least four digits. */
  function D4(index: nat): string {
    var digits := Digits(index);
    if |digits| < 4 then "0000"[|digits|..] + digits else digits
  }

  /** The number a digit string stands for, leading zeros or not. */
  ghost function Numeral(s: string): nat {
    if s == [] then 0
    else 10 * Numeral(s[..|s| - 1]) + (if '1' <= s[|s| - 1] <= '9' then (s[|s| - 1] - '0') as int else 0)
  }

  lemma {:induction false} LeadingZero(s: string)
    ensures Numeral("0" + s) == Numeral(s)
  {
    if s == [] {
      assert ("0" + s)[..|"0" + s| - 1] == [];
    } else {
      LeadingZero(s[..|s| - 1]);
      assert ("0" + s)[..|"0" + s| - 1] == "0" + s[..|s| - 1];
    }
  }

  lemma NumeralAppend(s: string, digit: nat)
    requires digit < 10
    ensures Numeral(s + [DIGITS[digit]]) == 10 * Numeral(s) + digit
  {
    assert (s + [DIGITS[digit]])[..|s|] == s;
  }

  lemma {:induction false} DigitsAreNumeral(n: nat)
    ensures Numeral(Digits(n)) == n
  {
    NumeralAppend(if n < 10 then [] else Digits(n / 10), n % 10);
    if n < 10 {
      assert [] + [DIGITS[n]] == Digits(n);
    } else {
      DigitsAreNumeral(n / 10);
    }
  }

  lemma {:induction false} Padded(k: nat, s: string)
    requires k <= 4
    ensures Numeral("0000"[k..] + s) == Numeral(s)
    decreases 4 - k
  {
    if k == 4 {
      assert "0000"[k..] + s == s;
    } else {
      Padded(k + 1, s);
      LeadingZero("0000"[k + 1..] + s);
      assert "0000"[k..] + s == "0" + ("0000"[k + 1..] + s);
    }
  }

  lemma D4IsNumeral(n: nat)
    ensures Numeral(D4(n)) == n
  {
    var d := Digits(n);
    DigitsAreNumeral(n);
    if |d| < 4 { Padded(|d|, d); }
  }

  lemma D4IsInjective(i: nat, j: nat)
    requires D4(i) == D4(j)
    ensures i == j
  {
    D4IsNumeral(i);
    D4IsNumeral(j);
  }

  function Parent(root: Path): Path
    requires |root| > 1
  {
    root[..|root| - 1]
  }

  function WorkRoot(root: Path, scopeId: string, id: nat): Path
    requires |root| > 1
  {
    Parent(root) + [".mkwc-transaction-" + scopeId + "-" + Digits(id)]
  }

  function JournalPath(root: Path, scopeId: string): Path
    requires |root| > 1
  {
    Parent(root) + [".mkwc-transaction-" + scopeId + ".json"]
  }

  function BackupPath(workRoot: Path, index: nat): Path {
    workRoot + ["backup", D4(index)]
  }

  // ----------------------------------------------------------------------- accepting publish entries

  predicate EntryAcceptable(fs: FileSystem, root: Path, e: PublishEntry) {
    Contains(root, e.destination) && !PathsOverlap(e.prepared, e.destination) &&
    Exists(fs, e.prepared, e.kind) && !ExistsAsOtherKind(fs, e.destination, e.kind)
  }

  predicate PairAcceptable(e: PublishEntry, previous: PublishEntry) {
    ClearOf(e, previous.prepared, previous.destination)
  }

  predicate ClearOf(e: PublishEntry, prepared: Path, destination: Path) {
    !PathsOverlap(e.destination, destination) && !PathsOverlap(e.prepared, prepared) &&
    !PathsOverlap(e.prepared, destination) && !PathsOverlap(e.destination, prepared)
  }

  ghost predicate Acceptable(fs: FileSystem, root: Path, requests: seq<PublishEntry>) {
    (forall i | 0 <= i < |requests| :: EntryAcceptable(fs, root, requests[i])) &&
    (forall i, j | 0 <= j < i < |requests| :: PairAcceptable(requests[i], requests[j]))
  }

  function Normalized(fs: FileSystem, workRoot: Path, e: PublishEntry, index: nat): JournalEntry {
    JournalEntry(e.prepared, e.destination, BackupPath(workRoot, index), e.kind,
                 Exists(fs, e.destination, e.kind))
  }

  predicate ClearOfAll(e: PublishEntry, earlier: seq<JournalEntry>) {
    forall k | 0 <= k < |earlier| :: ClearOf(e, earlier[k].prepared, earlier[k].destination)
  }

  /** The first thing wrong with an entry by itself, and otherwise with it and an earlier one. */
  ghost predicate IsAtFault(refusal: Refusal, fs: FileSystem, root: Path, e: PublishEntry, earlier: seq<JournalEntry>) {
    if !Contains(root, e.destination) then refusal == DestinationOutOfScope
    else if PathsOverlap(e.prepared, e.destination) then refusal == PreparedOverlapsDestination
    else if !Exists(fs, e.prepared, e.kind) then refusal == PreparedMissing
    else if ExistsAsOtherKind(fs, e.destination, e.kind) then refusal == WrongEntryType
    else exists k | 0 <= k < |earlier| :: IsConflict(refusal, e, earlier[k])
  }

  predicate IsConflict(refusal: Refusal, e: PublishEntry, previous: JournalEntry) {
    match refusal
    case DestinationsOverlap => PathsOverlap(e.destination, previous.destination)
    case PreparedPathsOverlap => PathsOverlap(e.prepared, previous.prepared)
    case SourcesAndDestinationsOverlap =>
      PathsOverlap(e.prepared, previous.destination) || PathsOverlap(e.destination, previous.prepared)
    case _ => false
  }

  /** What is wrong with a requested entry, if anything, after those normalized before it. */
  method CheckEntry(fs: FileSystem, root: Path, requested: PublishEntry, earlier: seq<JournalEntry>)
    returns (refusal: Option<Refusal>)
    ensures refusal.None? <==> EntryAcceptable(fs, root, requested) && ClearOfAll(requested, earlier)
    ensures refusal.Some? ==> IsAtFault(refusal.value, fs, root, requested, earlier)
  {
    if !Contains(root, requested.destination) { return Some(DestinationOutOfScope); }
    if PathsOverlap(requested.prepared, requested.destination) { return Some(PreparedOverlapsDestination); }
    if !Exists(fs, requested.prepared, requested.kind) { return Some(PreparedMissing); }
    if ExistsAsOtherKind(fs, requested.destination, requested.kind) { return Some(WrongEntryType); }
    for k := 0 to |earlier|
      invariant forall j | 0 <= j < k :: ClearOf(requested, earlier[j].prepared, earlier[j].destination)
    {
      var previous := earlier[k];
      if PathsOverlap(requested.destination, previous.destination) { return Some(DestinationsOverlap); }
      if PathsOverlap(requested.prepared, previous.prepared) { return Some(PreparedPathsOverlap); }
      if PathsOverlap(requested.prepared, previous.destination) ||
         PathsOverlap(requested.destination, previous.prepared) { return Some(SourcesAndDestinationsOverlap); }
    }
    return None;
  }

  lemma AcceptableUpTo(fs: FileSystem, root: Path, requests: seq<PublishEntry>, index: nat)
    requires index < |requests|
    ensures Acceptable(fs, root, requests[..index + 1]) <==>
            Acceptable(fs, root, requests[..index]) && EntryAcceptable(fs, root, requests[index]) &&
            forall k | 0 <= k < index :: PairAcceptable(requests[index], requests[k])
    ensures Acceptable(fs, root, requests) ==> Acceptable(fs, root, requests[..index + 1])
  {
    var fewer, more := requests[..index], requests[..index + 1];
    assert more == fewer + [requests[index]];
    assert forall i | 0 <= i < index :: fewer[i] == more[i] == requests[i];
    assert more[index] == requests[index];
  }

  ghost predicate Normalizes(fs: FileSystem, workRoot: Path, requests: seq<PublishEntry>, entries: seq<JournalEntry>) {
    |entries| <= |requests| &&
    forall i | 0 <= i < |entries| :: entries[i] == Normalized(fs, workRoot, requests[i], i)
  }

  lemma NormalizesOneMore(fs: FileSystem, workRoot: Path, requests: seq<PublishEntry>, entries: seq<JournalEntry>)
    requires Normalizes(fs, workRoot, requests, entries) && |entries| < |requests|
    ensures Normalizes(fs, workRoot, requests,
                       entries + [Normalized(fs, workRoot, requests[|entries|], |entries|)])
  {
  }

  lemma ClearOfNormalized(fs: FileSystem, workRoot: Path, requests: seq<PublishEntry>, entries: seq<JournalEntry>,
                          requested: PublishEntry)
    requires Normalizes(fs, workRoot, requests, entries)
    ensures ClearOfAll(requested, entries) <==>
            (forall k | 0 <= k < |entries| :: PairAcceptable(requested, requests[k]))
  {
    forall k | 0 <= k < |entries|
      ensures ClearOf(requested, entries[k].prepared, entries[k].destination) <==>
              PairAcceptable(requested, requests[k])
    {
      assert entries[k] == Normalized(fs, workRoot, requests[k], k);
    }
  }

  /** Accepts the requested entries exactly when each is in scope, present and of its kind, and no two
      of all the paths overlap. */
  method NormalizeEntries(fs: FileSystem, root: Path, workRoot: Path, requests: seq<PublishEntry>)
    returns (result: Result<seq<JournalEntry>>)
    ensures result.Ok? <==> Acceptable(fs, root, requests)
    ensures result.Ok? ==> |result.value| == |requests| && Normalizes(fs, workRoot, requests, result.value)
  {
    var normalized: seq<JournalEntry> := [];
    for index := 0 to |requests|
      invariant |normalized| == index && Normalizes(fs, workRoot, requests, normalized)
      invariant Acceptable(fs, root, requests[..index])
    {
      var refusal := CheckEntry(fs, root, requests[index], normalized);
      ClearOfNormalized(fs, workRoot, requests, normalized, requests[index]);
      AcceptableUpTo(fs, root, requests, index);
      if refusal.Some? { return Refused(refusal.value); }
      NormalizesOneMore(fs, workRoot, requests, normalized);
      normalized := normalized + [Normalized(fs, workRoot, requests[index], index)];
    }
    assert requests[..|requests|] == requests;
    return Ok(normalized);
  }

  /** All paths of a request list, the prepared ones first. */
  ghost function AllPaths(requests: seq<PublishEntry>): seq<Path> {
    seq(|requests|, i requires 0 <= i < |requests| => requests[i].prepared) +
    seq(|requests|, i requires 0 <= i < |requests| => requests[i].destination)
  }

  /** No listed path is the root of a drive that holds another listed path. */
  ghost predicate NoDriveRootHoldsAnother(paths: seq<Path>) {
    forall i, j | 0 <= i < |paths| && 0 <= j < |paths| && i != j ::
      |paths[i]| == 1 && paths[j] != [] ==> paths[j][0] != paths[i][0]
  }

  /** The accepted paths are pairwise disjoint unless one of them is a drive root: the overlap test
      never sees what a drive root holds. */
  lemma AcceptedPathsAreDisjoint(fs: FileSystem, root: Path, requests: seq<PublishEntry>)
    requires Acceptable(fs, root, requests)
    requires forall i | 0 <= i < |requests| :: requests[i].prepared != [] && requests[i].destination != []
    ensures PairwiseDisjoint(AllPaths(requests)) <==> NoDriveRootHoldsAnother(AllPaths(requests))
  {
    var n, paths := |requests|, AllPaths(requests);
    forall i, j | 0 <= i < |paths| && 0 <= j < |paths| && i != j
      ensures !PathsOverlap(paths[i], paths[j])
    {
      var p, q := if i < n then i else i - n, if j < n then j else j - n;
      assert EntryAcceptable(fs, root, requests[p]) && EntryAcceptable(fs, root, requests[q]);
      if p < q {
        assert PairAcceptable(requests[q], requests[p]);
      } else if q < p {
        assert PairAcceptable(requests[p], requests[q]);
      }
    }
    forall i, j | 0 <= i < |paths| && 0 <= j < |paths| && i != j
      ensures paths[i] <= paths[j] <==> |paths[i]| == 1 && paths[j][0] == paths[i][0]
    {
      assert !PathsOverlap(paths[i], paths[j]);
      assert paths[i] <= paths[j] ==> paths[i][0] == paths[j][0];
    }
  }

  // ----------------------------------------------------------------------------- validating a journal

  predicate BackupsExpected(journal: Journal, workRoot: Path) {
    forall i | 0 <= i < |journal.entries| :: journal.entries[i].backup == BackupPath(workRoot, i)
  }

  predicate HeaderValid(root: Path, scopeId: string, journal: Journal)
    requires |root| > 1
  {
    journal.schemaVersion == SCHEMA_VERSION && journal.transactionId != EMPTY_ID &&
    journal.installRoot == root && journal.workRoot == WorkRoot(root, scopeId, journal.transactionId)
  }

  predicate ValidJournal(root: Path, scopeId: string, journal: Journal)
    requires |root| > 1
  {
    HeaderValid(root, scopeId, journal) &&
    1 <= |journal.entries| <= MAXIMUM_ENTRIES &&
    (forall i | 0 <= i < |journal.entries| :: Contains(root, journal.entries[i].destination)) &&
    BackupsExpected(journal, journal.workRoot)
  }

  /** The first thing wrong with a journal. */
  ghost predicate IsInvalid(reason: Refusal, root: Path, scopeId: string, journal: Journal)
    requires |root| > 1
  {
    if journal.schemaVersion != 3 || journal.transactionId == 0 then reason == UnsupportedFormat
    else if journal.installRoot != root then reason == OtherInstallation
    else if journal.workRoot != WorkRoot(root, scopeId, journal.transactionId) then reason == InvalidWorkDirectory
    else if !(1 <= |journal.entries| <= 64) then reason == InvalidEntryCount
    else if reason == DestinationOutOfScope then
      exists i | 0 <= i < |journal.entries| :: !Contains(root, journal.entries[i].destination)
    else
      reason == InvalidBackupPath &&
      exists i | 0 <= i < |journal.entries| :: journal.entries[i].backup != BackupPath(journal.workRoot, i)
  }

  method ValidateJournal(root: Path, scopeId: string, journal: Journal) returns (result: Result<()>)
    requires |root| > 1
    ensures result.Ok? <==> ValidJournal(root, scopeId, journal)
    ensures HeaderValid(root, scopeId, journal) && !(1 <= |journal.entries| <= MAXIMUM_ENTRIES) ==>
      result == Refused(InvalidEntryCount)
    ensures result.Refused? ==> IsInvalid(result.reason, root, scopeId, journal)
  {
    if journal.schemaVersion != SCHEMA_VERSION || journal.transactionId == EMPTY_ID {
      return Refused(UnsupportedFormat);
    }
    if journal.installRoot != root {
      return Refused(OtherInstallation);
    }
    if journal.workRoot != WorkRoot(root, scopeId, journal.transactionId) {
      return Refused(InvalidWorkDirectory);
    }
    if |journal.entries| == 0 || |journal.entries| > MAXIMUM_ENTRIES {
      return Refused(InvalidEntryCount);
    }
    for index := 0 to |journal.entries|
      invariant forall i | 0 <= i < index :: Contains(root, journal.entries[i].destination)
      invariant forall i | 0 <= i < index :: journal.entries[i].backup == BackupPath(journal.workRoot, i)
    {
      if !Contains(root, journal.entries[index].destination) {
        return Refused(DestinationOutOfScope);
      }
      if journal.entries[index].backup != BackupPath(journal.workRoot, index) {
        return Refused(InvalidBackupPath);
      }
    }
    return Ok(());
  }
}
