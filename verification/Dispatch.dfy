/** Registration, publication and lookup of guest functions, and the memos in front of the tables. */
module Dispatch {
  import opened Basics
  import opened DispatchTable

  datatype FunctionKind = BaseTranslated | ModTranslated | Native

  const BASE_PRIORITY: nat := 0
  const MOD_PRIORITY: nat := 100
  const NATIVE_PRIORITY: nat := 10000
  const ALL_NONVOLATILE: bv32 := 0xffff_c000
  const OS_LOAD_CONTEXT: nat := 0x801A_1F58
  const MEMO_ENTRIES: nat := 512

  /** A registered function; `invoker` 0 is a null pointer. */
  datatype Info = Info(address: nat, moduleId: nat, priority: nat, kind: FunctionKind, invoker: nat,
                       mustRemainDynamic: bool, fprWriteMask: bv32)

  function DefaultPriority(kind: FunctionKind): nat {
    match kind
    case BaseTranslated => BASE_PRIORITY
    case ModTranslated => MOD_PRIORITY
    case Native => NATIVE_PRIORITY
  }

  function EffectivePriority(info: Info): nat {
    if info.priority != 0 then info.priority else DefaultPriority(info.kind)
  }

  function KindRank(kind: FunctionKind): nat {
    match kind
    case BaseTranslated => 0
    case ModTranslated => 1
    case Native => 2
  }

  predicate Better(candidate: Info, current: Info) {
    if EffectivePriority(candidate) != EffectivePriority(current) then
      EffectivePriority(candidate) > EffectivePriority(current)
    else if candidate.kind != current.kind then KindRank(candidate.kind) > KindRank(current.kind)
    else candidate.moduleId > current.moduleId
  }

  /** What the registrations of one address are ranked by: the priority, which 0 leaves to the kind, then the
      kind, native over mod over base, then the module. */
  ghost function Rank(info: Info): (nat, nat, nat) {
    (if info.priority != 0 then info.priority
     else match info.kind { case BaseTranslated => 0 case ModTranslated => 100 case Native => 10000 },
     match info.kind { case BaseTranslated => 0 case ModTranslated => 1 case Native => 2 },
     info.moduleId)
  }

  ghost predicate Exceeds(a: (nat, nat, nat), b: (nat, nat, nat)) {
    a.0 > b.0 || (a.0 == b.0 && a.1 > b.1) || (a.0 == b.0 && a.1 == b.1 && a.2 > b.2)
  }

  lemma BetterIsHigherRank(a: Info, b: Info)
    ensures Better(a, b) <==> Exceeds(Rank(a), Rank(b))
    ensures SameRegistration(a, b) <==> a.address == b.address && Rank(a) == Rank(b)
  {
  }

  predicate SameRegistration(a: Info, b: Info) {
    a.address == b.address && a.kind == b.kind && EffectivePriority(a) == EffectivePriority(b) &&
    a.moduleId == b.moduleId
  }

  function GuardMask(mask: bv32): bv32 {
    mask & ALL_NONVOLATILE
  }

  function RecordFor(info: Info): RawRecord {
    RawRecord(info.address, info.invoker, GuardMask(info.fprWriteMask),
              info.kind == Native && info.address != OS_LOAD_CONTEXT)
  }

  // ----------------------------------------------------------------------------------- the winner

  /** The best registration of an address among the first `n`. */
  function BestIndex(entries: seq<Info>, address: nat): (r: Option<nat>)
    ensures r.Some? ==> r.value < |entries| && entries[r.value].address == address
    ensures r.None? ==> forall i | 0 <= i < |entries| :: entries[i].address != address
  {
    if entries == [] then None
    else
      var last := |entries| - 1;
      var before := BestIndex(entries[..last], address);
      if entries[last].address == address && (before.None? || Better(entries[last], entries[before.value]))
      then Some(last) else before
  }

  function Winner(entries: seq<Info>, address: nat): Option<Info> {
    var best := BestIndex(entries, address);
    if best.None? then None else Some(entries[best.value])
  }

  /** The winner is a registration of the address that no other one exceeds; there is one as soon as the
      address is registered at all. */
  lemma {:induction false} WinnerRanksHighest(entries: seq<Info>, address: nat)
    ensures Winner(entries, address).Some? <==> exists i :: 0 <= i < |entries| && entries[i].address == address
    ensures Winner(entries, address).Some? ==>
      var winner := Winner(entries, address).value;
      winner in entries && winner.address == address &&
      forall i | 0 <= i < |entries| && entries[i].address == address :: !Exceeds(Rank(entries[i]), Rank(winner))
  {
    if entries == [] {
    } else {
      var last, most := entries[|entries| - 1], entries[..|entries| - 1];
      WinnerRanksHighest(most, address);
      assert forall i | 0 <= i < |most| :: most[i] == entries[i];
      if Winner(most, address).Some? { BetterIsHigherRank(last, Winner(most, address).value); }
    }
  }

  /** Among registrations that leave their priority to their kind, a native one replaces translated ones, and
      one of a mod replaces the base's. */
  lemma OverridesWin(entries: seq<Info>, address: nat, i: nat)
    requires i < |entries| && entries[i].address == address
    requires forall k | 0 <= k < |entries| && entries[k].address == address :: entries[k].priority == 0
    ensures Winner(entries, address).Some?
    ensures var winner := Winner(entries, address).value;
      (entries[i].kind.Native? ==> winner.kind.Native?) &&
      (entries[i].kind.ModTranslated? ==> !winner.kind.BaseTranslated?)
  {
    WinnerRanksHighest(entries, address);
    var winner := Winner(entries, address).value;
    assert !Exceeds(Rank(entries[i]), Rank(winner));
  }

  /** No two registrations of one address tie. */
  ghost predicate NoDuplicates(entries: seq<Info>) {
    forall i, j {:trigger SameRegistration(entries[i], entries[j])} | 0 <= i < j < |entries| ::
      !SameRegistration(entries[i], entries[j])
  }

  lemma BetterIsTotal(a: Info, b: Info)
    requires a.address == b.address && !SameRegistration(a, b)
    ensures Better(a, b) <==> !Better(b, a)
  {
  }

  /** The winner of an address beats every other registration of it, so it does not depend on the order
      in which they came. */
  lemma {:induction false} WinnerBeatsAll(entries: seq<Info>, address: nat, i: nat)
    requires NoDuplicates(entries) && i < |entries| && entries[i].address == address
    ensures BestIndex(entries, address).Some?
    ensures var best := BestIndex(entries, address).value;
      best == i || Better(entries[best], entries[i])
  {
    var last := |entries| - 1;
    var before := BestIndex(entries[..last], address);
    assert NoDuplicates(entries[..last]);
    if i < last {
      assert entries[..last][i] == entries[i];
      WinnerBeatsAll(entries[..last], address, i);
      if Better(entries[last], entries[before.value]) {
        BetterIsTransitive(entries[last], entries[before.value], entries[i]);
      }
    } else if before.Some? {
      assert !SameRegistration(entries[before.value], entries[last]);
      BetterIsTotal(entries[before.value], entries[last]);
    }
  }

  lemma BetterIsTransitive(a: Info, b: Info, c: Info)
    requires Better(a, b) && (b == c || Better(b, c))
    ensures Better(a, c)
  {
  }

  lemma WinnerIsOrderFree(a: seq<Info>, b: seq<Info>, address: nat)
    requires NoDuplicates(a) && NoDuplicates(b) && (forall info | info in a :: info in b)
    requires forall info | info in b :: info in a
    ensures Winner(a, address) == Winner(b, address)
  {
    var first, second := BestIndex(a, address), BestIndex(b, address);
    if first.Some? { assert a[first.value] in b; }
    if second.Some? { assert b[second.value] in a; }
    if first.Some? {
      var i :| 0 <= i < |b| && b[i] == a[first.value];
      WinnerBeatsAll(b, address, i);
      var j :| 0 <= j < |a| && a[j] == b[second.value];
      WinnerBeatsAll(a, address, j);
    }
  }

  // ------------------------------------------------------------------------------- what is published

  /** What a raw lookup answers once everything is published: the winner, if it can be called raw. With a
      generated table every translated winner can; otherwise only what must stay dynamic is listed. */
  function PublishedAnswer(entries: seq<Info>, hasTable: bool, address: nat): Option<RawRecord> {
    match Winner(entries, address)
    case None => None
    case Some(info) =>
      if info.invoker == 0 then None
      else if hasTable && info.kind != Native then Some(RecordFor(info))
      else if info.mustRemainDynamic then Some(RecordFor(info)) else None
  }

  /** Bits 14 to 31 stand for the nonvolatile registers. */
  lemma GuardsNonvolatileOnly(mask: bv32)
    ensures GuardMask(mask) & 0x3fff == 0 && GuardMask(mask) | (mask & 0x3fff) == mask
  {
  }

  /** An address is published if its winner can be called, and is in the generated table or stays dynamic.
      Whatever is published for it calls its winner, guards just the nonvolatile floating-point registers
      the winner writes, and keeps the general ones around native functions but the one that loads a context. */
  lemma PublishedAnswerCallsTheWinner(entries: seq<Info>, hasTable: bool, address: nat)
    requires Winner(entries, address).Some?
    ensures var winner := Winner(entries, address).value;
      PublishedAnswer(entries, hasTable, address).Some? <==>
        winner.invoker != 0 && (winner.mustRemainDynamic || (hasTable && !winner.kind.Native?))
    ensures PublishedAnswer(entries, hasTable, address).Some? ==>
      var r, winner := PublishedAnswer(entries, hasTable, address).value, Winner(entries, address).value;
      r.address == address && r.entry == winner.invoker != 0 &&
      r.fprWriteMask & 0x3fff == 0 && r.fprWriteMask | (winner.fprWriteMask & 0x3fff) == winner.fprWriteMask &&
      (r.preserveGprs <==> winner.kind.Native? && address != 0x801A_1F58)
  {
    GuardsNonvolatileOnly(Winner(entries, address).value.fprWriteMask);
  }

  /** The winners the dynamic list holds. */
  predicate ListedDynamically(info: Info, hasTable: bool) {
    info.invoker != 0 && info.mustRemainDynamic && !(hasTable && info.kind != Native)
  }

  ghost predicate IndexesWinners(index: map<nat, nat>, entries: seq<Info>) {
    (forall address | address in index :: BestIndex(entries, address) == Some(index[address])) &&
    (forall i | 0 <= i < |entries| :: entries[i].address in index)
  }

  predicate ListedAt(entries: seq<Info>, hasTable: bool, address: nat) {
    Winner(entries, address).Some? && ListedDynamically(Winner(entries, address).value, hasTable)
  }

  predicate IsWinnersRecord(r: RawRecord, entries: seq<Info>, hasTable: bool) {
    ListedAt(entries, hasTable, r.address) && r == RecordFor(Winner(entries, r.address).value)
  }

  /** The sorted dynamic list holds exactly the listed winners among `addresses`. */
  ghost predicate ListsWinners(records: seq<RawRecord>, entries: seq<Info>, hasTable: bool, addresses: set<nat>) {
    Increasing(records) &&
    (forall r | r in records :: r.address in addresses && IsWinnersRecord(r, entries, hasTable)) &&
    (forall address | address in addresses && ListedAt(entries, hasTable, address) ::
       RecordFor(Winner(entries, address).value) in records)
  }

  predicate BacksTranslatedWinner(r: RawRecord, entries: seq<Info>) {
    var winner := Winner(entries, r.address);
    winner.Some? && winner.value.kind != Native && winner.value.invoker != 0 && r == RecordFor(winner.value)
  }

  predicate CoveredByTable(table: Table, entries: seq<Info>, address: nat) {
    var winner := Winner(entries, address);
    winner.Some? && winner.value.kind != Native && winner.value.invoker != 0 ==> FindEntry(table, address).Some?
  }

  /** The generated table agrees with the winners: its entries are translated winners, and none is missing. */
  ghost predicate TableAgrees(table: Table, entries: seq<Info>) {
    FindsItsEntries(table) &&
    (forall i | 0 <= i < |table.entries| :: BacksTranslatedWinner(table.entries[i], entries)) &&
    (forall k | 0 <= k < |entries| :: CoveredByTable(table, entries, entries[k].address))
  }

  function FindDynamic(records: seq<RawRecord>, address: nat): (r: Option<RawRecord>) {
    var lower := Search(records, 0, |records|, address);
    if lower < |records| && records[lower].address == address then Some(records[lower]) else None
  }

  function FindRaw(table: Option<Table>, records: seq<RawRecord>, address: nat): Option<RawRecord> {
    if table.Some? && FindEntry(table.value, address).Some?
    then Some(table.value.entries[FindEntry(table.value, address).value])
    else FindDynamic(records, address)
  }

  lemma FindDynamicFinds(records: seq<RawRecord>, address: nat, i: nat)
    requires Increasing(records)
    ensures i < |records| && records[i].address == address ==> FindDynamic(records, address) == Some(records[i])
    ensures (forall k | 0 <= k < |records| :: records[k].address != address) ==> FindDynamic(records, address) == None
  {
    SearchIsLowerBound(records, 0, |records|, address);
  }

  /** Table, binary searches and dynamic list together answer exactly what the winners say. */
  lemma LookupAnswersTheWinner(table: Option<Table>, records: seq<RawRecord>, entries: seq<Info>,
                               addresses: set<nat>, address: nat)
    requires table.Some? ==> TableAgrees(table.value, entries)
    requires ListsWinners(records, entries, table.Some?, addresses)
    requires Winner(entries, address).Some? ==> address in addresses
    ensures FindRaw(table, records, address) == PublishedAnswer(entries, table.Some?, address)
  {
    var winner := Winner(entries, address);
    if table.Some? && FindEntry(table.value, address).Some? {
      assert table.value.entries[FindEntry(table.value, address).value].address == address;
    } else {
      if winner.Some? {
        assert entries[BestIndex(entries, address).value].address == address;
      }
      if winner.Some? && ListedDynamically(winner.value, table.Some?) {
        assert RecordFor(winner.value) in records;
        var i :| 0 <= i < |records| && records[i] == RecordFor(winner.value);
        FindDynamicFinds(records, address, i);
      } else {
        forall k | 0 <= k < |records| ensures records[k].address != address {
          assert records[k] in records;
        }
        FindDynamicFinds(records, address, 0);
      }
    }
  }

  // ------------------------------------------------------------------------------------ the registry

  datatype RawMemo = RawMemo(valid: bool, address: nat, record: Option<RawRecord>)

  datatype InfoMemo = InfoMemo(valid: bool, address: nat, info: Option<Info>)

  /** `((address >> 2) * 2654435761u) & 511`. */
  function MemoSlot(address: nat): (slot: nat)
    ensures slot < MEMO_ENTRIES
  {
    address / 4 * 2654435761 % 0x1_0000_0000 % MEMO_ENTRIES
  }

  datatype Registration = Registered | DuplicateIgnored | RefusedAfterPublication

  function InsertSorted(records: seq<RawRecord>, r: RawRecord): (result: seq<RawRecord>)
    requires Increasing(records) && forall i | 0 <= i < |records| :: records[i].address != r.address
    ensures Increasing(result)
    ensures forall x | x in result :: x == r || x in records
    ensures r in result && forall x | x in records :: x in result
  {
    if records == [] || r.address < records[0].address then [r] + records
    else
      var rest := InsertSorted(records[1..], r);
      assert forall x | x in records[1..] :: x.address > records[0].address;
      assert forall x | x in rest :: x.address > records[0].address;
      assert forall i | 0 <= i < |rest| :: rest[i] in rest;
      [records[0]] + rest
  }

  lemma RegisterKeepsIndex(entries: seq<Info>, index: map<nat, nat>, info: Info)
    requires IndexesWinners(index, entries)
    ensures var better := info.address !in index || Better(info, entries[index[info.address]]);
      IndexesWinners(if better then index[info.address := |entries|] else index, entries + [info])
  {
    assert (entries + [info])[..|entries|] == entries;
    if info.address !in index {
      assert BestIndex(entries, info.address).None?;
    }
  }

  lemma RegisterKeepsApart(entries: seq<Info>, info: Info)
    requires NoDuplicates(entries) && forall k | 0 <= k < |entries| :: !SameRegistration(entries[k], info)
    ensures NoDuplicates(entries + [info])
  {
  }

  lemma IndexedWinner(index: map<nat, nat>, entries: seq<Info>, address: nat)
    requires IndexesWinners(index, entries) && address in index
    ensures index[address] < |entries| && entries[index[address]].address == address
    ensures Winner(entries, address) == Some(entries[index[address]])
  {
    assert BestIndex(entries, address) == Some(index[address]);
  }

  method ListDynamicWinners(entries: seq<Info>, index: map<nat, nat>, hasTable: bool) returns (list: seq<RawRecord>)
    requires IndexesWinners(index, entries)
    ensures ListsWinners(list, entries, hasTable, index.Keys)
  {
    var pending := index.Keys;
    list := [];
    ghost var done: set<nat> := {};
    while pending != {}
      invariant done !! pending && done + pending == index.Keys
      invariant ListsWinners(list, entries, hasTable, done)
      decreases |pending|
    {
      var address :| address in pending;
      IndexedWinner(index, entries, address);
      list := ListWinner(list, entries, hasTable, entries[index[address]], done);
      pending, done := pending - {address}, done + {address};
    }
  }

  method ListWinner(list: seq<RawRecord>, entries: seq<Info>, hasTable: bool, info: Info, ghost done: set<nat>)
    returns (more: seq<RawRecord>)
    requires ListsWinners(list, entries, hasTable, done) && info.address !in done
    requires Winner(entries, info.address) == Some(info)
    ensures ListsWinners(more, entries, hasTable, done + {info.address})
  {
    AddressIsNew(list, entries, hasTable, done, info.address);
    more := list;
    if ListedDynamically(info, hasTable) {
      more := InsertSorted(list, RecordFor(info));
    }
    OneMoreWinner(list, more, entries, hasTable, done, info.address);
  }

  lemma AddressIsNew(list: seq<RawRecord>, entries: seq<Info>, hasTable: bool, done: set<nat>, address: nat)
    requires ListsWinners(list, entries, hasTable, done) && address !in done
    ensures forall i | 0 <= i < |list| :: list[i].address != address
  {
    forall i | 0 <= i < |list| ensures list[i].address != address {
      assert list[i] in list;
    }
  }

  /** One winner more is looked at, and listed if it stays dynamic. */
  lemma OneMoreWinner(list: seq<RawRecord>, more: seq<RawRecord>, entries: seq<Info>, hasTable: bool, done: set<nat>,
                      address: nat)
    requires ListsWinners(list, entries, hasTable, done) && Increasing(more)
    requires Winner(entries, address).Some? && Winner(entries, address).value.address == address
    requires var record := RecordFor(Winner(entries, address).value);
      (forall x | x in list :: x in more) &&
      if ListedAt(entries, hasTable, address) then
        record in more && forall x | x in more :: x == record || x in list
      else more == list
    ensures ListsWinners(more, entries, hasTable, done + {address})
  {
  }

  datatype Validation = Valid | InvalidTable | MalformedEntry(i: nat) | NotRegistered(i: nat) | StaleWinner(i: nat) |
    OmittedWinner(address: nat)

  /** One entry of the generated table as publication wants it. */
  predicate EntrySound(table: Table, entries: seq<Info>, i: nat)
    requires i < |table.entries|
  {
    var record := table.entries[i];
    record.address % 4 == 0 && (i != 0 ==> table.entries[i - 1].address < record.address) &&
    FindEntry(table, record.address) == Some(i) && BacksTranslatedWinner(record, entries)
  }

  lemma {:induction false} NeighboursIncrease(table: Table, entries: seq<Info>, i: nat, j: nat)
    requires forall k | 0 <= k < |table.entries| :: EntrySound(table, entries, k)
    requires i < j < |table.entries|
    ensures table.entries[i].address < table.entries[j].address
  {
    assert EntrySound(table, entries, j);
    if i == j - 1 {
    } else {
      NeighboursIncrease(table, entries, i, j - 1);
    }
  }

  predicate InWord(address: nat) { address < 0x1_0000_0000 }

  method ValidateEntries(table: Table, entries: seq<Info>, index: map<nat, nat>) returns (v: Validation)
    requires IndexesWinners(index, entries)
    requires forall i | 0 <= i < |table.entries| :: InWord(table.entries[i].address)
    ensures v.Valid? <==> AllSound(table, entries)
  {
    for i := 0 to |table.entries|
      invariant forall k | 0 <= k < i :: EntrySound(table, entries, k)
    {
      v := ValidateEntry(table, entries, index, i);
      if !v.Valid? { return; }
    }
    return Validation.Valid;
  }

  method ValidateEntry(table: Table, entries: seq<Info>, index: map<nat, nat>, i: nat) returns (v: Validation)
    requires IndexesWinners(index, entries) && i < |table.entries| && InWord(table.entries[i].address)
    ensures v.Valid? <==> EntrySound(table, entries, i)
  {
    var record := table.entries[i];
    var found := FindStaticIndirectDispatchEntry(table, record.address);
    if record.address % 4 != 0 || record.entry == 0 ||
       (i != 0 && record.address <= table.entries[i - 1].address) || found != Some(i) {
      return MalformedEntry(i);
    }
    if record.address !in index { return NotRegistered(i); }
    var info := entries[index[record.address]];
    assert Winner(entries, record.address) == Some(info);
    return if Stale(info, record) then StaleWinner(i) else Validation.Valid;
  }

  predicate Stale(info: Info, record: RawRecord) {
    info.kind == Native || info.invoker != record.entry || GuardMask(info.fprWriteMask) != record.fprWriteMask ||
    record.preserveGprs
  }

  method ValidateCoverage(table: Table, entries: seq<Info>, index: map<nat, nat>) returns (v: Validation)
    requires IndexesWinners(index, entries)
    requires forall i | 0 <= i < |entries| :: InWord(entries[i].address)
    ensures v.Valid? <==> forall a | a in index :: CoveredByTable(table, entries, a)
  {
    var pending := index.Keys;
    while pending != {}
      invariant pending <= index.Keys
      invariant forall a | a in index && a !in pending :: CoveredByTable(table, entries, a)
      decreases |pending|
    {
      var address :| address in pending;
      var info := entries[index[address]];
      assert Winner(entries, address) == Some(info);
      var found := FindStaticIndirectDispatchEntry(table, address);
      if info.kind != Native && info.invoker != 0 && found.None? {
        assert !CoveredByTable(table, entries, address);
        return OmittedWinner(address);
      }
      pending := pending - {address};
    }
    return Validation.Valid;
  }

  /** What publication demands of the generated table: it is there, its targets are instructions, it finds
      its own entries, they are the translated winners, and no translated winner is left out. */
  ghost predicate Publishable(table: Table, entries: seq<Info>) {
    table.profileName.Some? && |table.segments| == SEGMENTS && table.entries != [] &&
    (forall i | 0 <= i < |table.entries| :: table.entries[i].address % 4 == 0) && TableAgrees(table, entries)
  }

  ghost predicate AllSound(table: Table, entries: seq<Info>) {
    forall i | 0 <= i < |table.entries| :: EntrySound(table, entries, i)
  }

  /** A table of sound entries finds them all, and the other way round. */
  lemma SoundEntriesAgree(table: Table, entries: seq<Info>)
    ensures AllSound(table, entries) <==>
            (forall i | 0 <= i < |table.entries| :: table.entries[i].address % 4 == 0) && FindsItsEntries(table) &&
            (forall i | 0 <= i < |table.entries| :: BacksTranslatedWinner(table.entries[i], entries))
  {
    if AllSound(table, entries) {
      forall i, j | 0 <= i < j < |table.entries| ensures table.entries[i].address < table.entries[j].address {
        NeighboursIncrease(table, entries, i, j);
      }
      forall i | 0 <= i < |table.entries|
        ensures table.entries[i].address % 4 == 0 && FindEntry(table, table.entries[i].address) == Some(i) &&
                BacksTranslatedWinner(table.entries[i], entries)
      {
        assert EntrySound(table, entries, i);
      }
    }
  }

  lemma CoverageByIndex(table: Table, entries: seq<Info>, index: map<nat, nat>)
    requires IndexesWinners(index, entries)
    ensures (forall a | a in index :: CoveredByTable(table, entries, a)) <==>
            (forall k | 0 <= k < |entries| :: CoveredByTable(table, entries, entries[k].address))
  {
    forall a | a in index ensures index[a] < |entries| && entries[index[a]].address == a {
      assert BestIndex(entries, a) == Some(index[a]);
    }
  }

  lemma PublishableParts(table: Table, entries: seq<Info>, index: map<nat, nat>)
    requires IndexesWinners(index, entries)
    requires table.profileName.Some? && |table.segments| == SEGMENTS && table.entries != []
    ensures Publishable(table, entries) <==>
            AllSound(table, entries) && forall a | a in index :: CoveredByTable(table, entries, a)
  {
    SoundEntriesAgree(table, entries);
    CoverageByIndex(table, entries, index);
  }

  method ValidateTable(table: Table, entries: seq<Info>, index: map<nat, nat>) returns (v: Validation)
    requires IndexesWinners(index, entries)
    requires forall i | 0 <= i < |entries| :: InWord(entries[i].address)
    requires forall i | 0 <= i < |table.entries| :: InWord(table.entries[i].address)
    ensures v.Valid? <==> Publishable(table, entries)
  {
    if table.profileName.None? || |table.segments| != SEGMENTS || table.entries == [] { return InvalidTable; }
    PublishableParts(table, entries, index);
    v := ValidateEntries(table, entries, index);
    if !v.Valid? { return; }
    v := ValidateCoverage(table, entries, index);
  }

  class Registry {
    var entries: seq<Info>
    var index: map<nat, nat>
    var table: Option<Table>
    var records: seq<RawRecord>
    var published: bool

    ghost predicate Valid()
      reads this
    {
      NoDuplicates(entries) && IndexesWinners(index, entries) && (published ==> Agreed())
    }

    ghost predicate Agreed()
      reads this
    {
      (table.Some? ==> TableAgrees(table.value, entries)) &&
      ListsWinners(records, entries, table.Some?, index.Keys)
    }

    constructor ()
      ensures Valid() && entries == [] && !published && table == None
    {
      entries, index, table, records, published := [], map[], None, [], false;
    }

    method RegisterTable(t: Table) returns (ok: bool)
      requires Valid()
      modifies this`table
      ensures Valid() && ok == (!published && (old(table).None? || old(table) == Some(t)))
      ensures table == if ok then Some(t) else old(table)
    {
      if published { return false; }
      if table.Some? && table != Some(t) { return false; }
      table := Some(t);
      return true;
    }

    method Register(info: Info) returns (outcome: Registration)
      requires Valid()
      modifies this`entries, this`index
      ensures Valid()
      ensures outcome == RefusedAfterPublication <==> published
      ensures outcome == Registered ==> entries == old(entries) + [info.(priority := Rank(info).0)]
      ensures outcome != Registered ==> entries == old(entries) && index == old(index)
      ensures outcome == DuplicateIgnored <==>
        !published && exists e | e in old(entries) :: e.address == info.address && Rank(e) == Rank(info)
    {
      if published { return RefusedAfterPublication; }
      var normal := info.(priority := EffectivePriority(info));
      for i := 0 to |entries|
        invariant forall k | 0 <= k < i :: !SameRegistration(entries[k], normal)
      {
        if SameRegistration(entries[i], normal) {
          BetterIsHigherRank(entries[i], info);
          return DuplicateIgnored;
        }
      }
      forall e | e in entries ensures !(e.address == info.address && Rank(e) == Rank(info)) {
        BetterIsHigherRank(e, normal);
      }
      RegisterKeepsIndex(entries, index, normal);
      RegisterKeepsApart(entries, normal);
      if normal.address !in index || Better(normal, entries[index[normal.address]]) {
        index := index[normal.address := |entries|];
      }
      entries := entries + [normal];
      return Registered;
    }

    /** Lists the winners that stay dynamic, sorted by address. */
    method RebuildRecords()
      requires Valid() && !published
      modifies this`records
      ensures Valid() && ListsWinners(records, entries, table.Some?, index.Keys)
    {
      records := ListDynamicWinners(entries, index, table.Some?);
    }

    ghost predicate AddressesInWord()
      reads this
    {
      (forall i | 0 <= i < |entries| :: InWord(entries[i].address)) &&
      (table.Some? ==> forall i | 0 <= i < |table.value.entries| :: InWord(table.value.entries[i].address))
    }

    /** Publishes once and for all, if and only if the generated table passes. */
    method Finalize() returns (v: Validation)
      requires Valid() && AddressesInWord()
      modifies this`records, this`published
      ensures Valid() && (published <==> v.Valid?)
      ensures v.Valid? <==> old(published) || table.None? || Publishable(table.value, entries)
      ensures old(published) ==> records == old(records)
    {
      if published { return Validation.Valid; }
      RebuildRecords();
      v := Validation.Valid;
      if table.Some? {
        v := ValidateTable(table.value, entries, index);
      }
      published := v.Valid?;
    }

    method FindByAddressSlow(address: nat) returns (info: Option<Info>)
      requires Valid()
      ensures info == Winner(entries, address)
    {
      // the scan of all entries behind this finds nothing the index does not already hold
      return if address in index then Some(entries[index[address]]) else None;
    }

    /** The memo miss: the generated table first, then what is registered dynamically. */
    method ResolveRaw(address: nat) returns (record: Option<RawRecord>)
      requires Valid() && published && InWord(address)
      ensures record == PublishedAnswer(entries, table.Some?, address)
    {
      record := None;
      if table.Some? {
        var found := FindStaticIndirectDispatchEntry(table.value, address);
        if found.Some? { record := Some(table.value.entries[found.value]); }
      }
      if record == None {
        record := FindDynamic(records, address);
      }
      WinnerIsIndexed(address);
      LookupAnswersTheWinner(table, records, entries, index.Keys, address);
    }

    lemma WinnerIsIndexed(address: nat)
      requires Valid()
      ensures Winner(entries, address).Some? ==> address in index.Keys
    {
    }
  }

  /** One thread's memos in front of the registry. */
  class Memos {
    const raw: array<RawMemo>
    const infos: array<InfoMemo>

    /** Before publication no lookup is remembered; after it every remembered one is right. */
    ghost predicate Coherent(r: Registry)
      reads r, raw, infos
    {
      raw.Length == MEMO_ENTRIES && infos.Length == MEMO_ENTRIES &&
      (forall i | 0 <= i < MEMO_ENTRIES && raw[i].valid :: r.published &&
         raw[i].record == PublishedAnswer(r.entries, r.table.Some?, raw[i].address)) &&
      (forall i | 0 <= i < MEMO_ENTRIES && infos[i].valid :: r.published &&
         infos[i].info == Winner(r.entries, infos[i].address))
    }

    constructor (r: Registry)
      ensures Coherent(r) && fresh(raw) && fresh(infos)
    {
      raw := new RawMemo[MEMO_ENTRIES](_ => RawMemo(false, 0, None));
      infos := new InfoMemo[MEMO_ENTRIES](_ => InfoMemo(false, 0, None));
    }

    /** The winner, now and always; remembered only once it can no longer change. */
    method FindByAddress(r: Registry, address: nat) returns (info: Option<Info>)
      requires r.Valid() && Coherent(r)
      modifies infos
      ensures Coherent(r) && info == Winner(r.entries, address)
      ensures infos[..] == if r.published then old(infos[..])[MemoSlot(address) := InfoMemo(true, address, info)]
                           else old(infos[..])
    {
      if !r.published {
        info := r.FindByAddressSlow(address);
        return;
      }
      var cached := infos[MemoSlot(address)];
      if cached.valid && cached.address == address { return cached.info; }
      info := r.FindByAddressSlow(address);
      infos[MemoSlot(address)] := InfoMemo(true, address, info);
    }

    /** Memo, generated table, binary search and dynamic list answer what the winners say. */
    method FindRawByAddress(r: Registry, address: nat) returns (record: Option<RawRecord>)
      requires r.Valid() && Coherent(r) && InWord(address)
      modifies raw
      ensures Coherent(r)
      ensures record == if r.published then PublishedAnswer(r.entries, r.table.Some?, address) else None
      ensures raw[..] == if r.published then old(raw[..])[MemoSlot(address) := RawMemo(true, address, record)]
                         else old(raw[..])
    {
      if !r.published { return None; }
      var cached := raw[MemoSlot(address)];
      if cached.valid && cached.address == address { return cached.record; }
      record := r.ResolveRaw(address);
      raw[MemoSlot(address)] := RawMemo(true, address, record);
    }
  }
}
