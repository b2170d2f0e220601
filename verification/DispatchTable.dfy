/** The generated two-level dispatch table: a segment per high address byte, a page per 4 KiB of guest
    code, and a binary search among a page's entries. */
module DispatchTable {
  import opened Basics

  /** What an indirect call needs of its target; 0 stands for a null entry. */
  datatype RawRecord = RawRecord(address: nat, entry: nat, fprWriteMask: bv32, preserveGprs: bool)

  datatype Page = Page(firstEntry: nat, entryCount: nat)

  datatype Segment = Segment(pages: Option<seq<Page>>, firstPage: nat)

  datatype Table = Table(profileName: Option<string>, segments: seq<Segment>, entries: seq<RawRecord>)

  const SEGMENTS: nat := 256

  /** The lower bound the binary search settles on, whatever the entries are. */
  function Search(entries: seq<RawRecord>, lower: nat, upper: nat, address: nat): (r: nat)
    requires lower <= upper <= |entries|
    ensures lower <= r <= upper
    decreases upper - lower
  {
    if lower == upper then lower
    else
      var middle := lower + (upper - lower) / 2;
      if entries[middle].address < address then Search(entries, middle + 1, upper, address)
      else Search(entries, lower, middle, address)
  }

  function HighByte(address: nat): nat { address / 0x100_0000 }

  function PageNumber(address: nat): nat { address / 0x1000 % 0x1000 }

  /** The entries a page of the table names for an address. */
  function EntryRange(table: Table, address: nat): Option<(nat, nat)> {
    if |table.segments| != SEGMENTS || table.entries == [] || address >= 0x1_0000_0000 then None
    else
      var segment := table.segments[HighByte(address)];
      var pageNumber := PageNumber(address);
      if segment.pages.None? || pageNumber < segment.firstPage ||
         pageNumber - segment.firstPage >= |segment.pages.value| then None
      else
        var page := segment.pages.value[pageNumber - segment.firstPage];
        if page.firstEntry > |table.entries| || page.entryCount > |table.entries| - page.firstEntry then None
        else Some((page.firstEntry, page.firstEntry + page.entryCount))
  }

  function FindEntry(table: Table, address: nat): (r: Option<nat>)
    ensures r.Some? ==> r.value < |table.entries| && table.entries[r.value].address == address
  {
    match EntryRange(table, address)
    case None => None
    case Some((first, end)) =>
      var lower := Search(table.entries, first, end, address);
      if lower < end && table.entries[lower].address == address then Some(lower) else None
  }

  /** `FindStaticIndirectDispatchEntry`, step by step. */
  method FindStaticIndirectDispatchEntry(table: Table, address: nat) returns (found: Option<nat>)
    requires address < 0x1_0000_0000
    ensures found == FindEntry(table, address)
  {
    if |table.segments| != SEGMENTS || table.entries == [] { return None; }
    var segment := table.segments[HighByte(address)];
    var pageNumber := PageNumber(address);
    if segment.pages.None? || pageNumber < segment.firstPage { return None; }
    var relativePage := pageNumber - segment.firstPage;
    if relativePage >= |segment.pages.value| { return None; }
    var page := segment.pages.value[relativePage];
    var first, count := page.firstEntry, page.entryCount;
    if first > |table.entries| || count > |table.entries| - first { return None; }
    var lower := LowerBound(table.entries, first, first + count, address);
    return if lower < first + count && table.entries[lower].address == address then Some(lower) else None;
  }

  method LowerBound(entries: seq<RawRecord>, first: nat, end: nat, address: nat) returns (lower: nat)
    requires first <= end <= |entries|
    ensures lower == Search(entries, first, end, address)
  {
    lower := first;
    var upper := end;
    while lower < upper
      invariant first <= lower <= upper <= end
      invariant Search(entries, lower, upper, address) == Search(entries, first, end, address)
    {
      var middle := lower + (upper - lower) / 2;
      if entries[middle].address < address {
        lower := middle + 1;
      } else {
        upper := middle;
      }
    }
  }

  ghost predicate Increasing(entries: seq<RawRecord>) {
    forall i, j | 0 <= i < j < |entries| :: entries[i].address < entries[j].address
  }

  /** What publication checks of a table by itself. */
  ghost predicate FindsItsEntries(table: Table) {
    Increasing(table.entries) &&
    forall i | 0 <= i < |table.entries| :: FindEntry(table, table.entries[i].address) == Some(i)
  }

  /** A table that finds its own entries answers every address as a linear search of them would. */
  lemma TableIsLinearSearch(table: Table, address: nat, i: nat)
    requires FindsItsEntries(table)
    ensures FindEntry(table, address) == Some(i) <==> i < |table.entries| && table.entries[i].address == address
  {
  }

  lemma {:induction false} SearchIsLowerBound(entries: seq<RawRecord>, lower: nat, upper: nat, address: nat)
    requires Increasing(entries) && lower <= upper <= |entries|
    ensures var r := Search(entries, lower, upper, address);
      (forall i | lower <= i < r :: entries[i].address < address) &&
      (forall i | r <= i < upper :: entries[i].address >= address)
    decreases upper - lower
  {
    if lower == upper {
    } else {
      var middle := lower + (upper - lower) / 2;
      if entries[middle].address < address {
        SearchIsLowerBound(entries, middle + 1, upper, address);
        BelowIsBelow(entries, lower, middle, address);
      } else {
        SearchIsLowerBound(entries, lower, middle, address);
        AboveIsAbove(entries, middle, upper, address);
      }
    }
  }

  lemma BelowIsBelow(entries: seq<RawRecord>, lower: nat, middle: nat, address: nat)
    requires Increasing(entries) && middle < |entries| && entries[middle].address < address
    ensures forall i | lower <= i <= middle :: entries[i].address < address
  {
  }

  lemma AboveIsAbove(entries: seq<RawRecord>, middle: nat, upper: nat, address: nat)
    requires Increasing(entries) && middle < upper <= |entries| && entries[middle].address >= address
    ensures forall i | middle <= i < upper :: entries[i].address >= address
  {
  }

  /** The `i`-th entry lies in the page of its address: the 4 KiB page among those the segment of its 16 MiB lists. */
  ghost predicate InItsPage(table: Table, i: nat)
    requires i < |table.entries|
  {
    var address := table.entries[i].address;
    address < 0x1_0000_0000 && |table.segments| == 256 &&
    var segment, number := table.segments[address / 0x100_0000], address % 0x100_0000 / 0x1000;
    segment.pages.Some? && segment.firstPage <= number < segment.firstPage + |segment.pages.value| &&
    var page := segment.pages.value[number - segment.firstPage];
    page.firstEntry <= i < page.firstEntry + page.entryCount <= |table.entries|
  }

  /** The layout the generator promises: sorted entries, each in its own page. */
  ghost predicate Generated(table: Table) {
    Increasing(table.entries) && forall i | 0 <= i < |table.entries| :: InItsPage(table, i)
  }

  lemma InItsPageExactly(table: Table, i: nat)
    requires i < |table.entries|
    ensures var range := EntryRange(table, table.entries[i].address);
      InItsPage(table, i) <==> range.Some? && range.value.0 <= i < range.value.1
  {
    var address := table.entries[i].address;
    if address < 0x1_0000_0000 { assert address / 0x1000 % 0x1000 == address % 0x100_0000 / 0x1000; }
  }

  lemma EntryIsFound(table: Table, i: nat)
    requires Increasing(table.entries) && i < |table.entries| && InItsPage(table, i)
    ensures FindEntry(table, table.entries[i].address) == Some(i)
  {
    InItsPageExactly(table, i);
    var (first, end) := EntryRange(table, table.entries[i].address).value;
    SearchIsLowerBound(table.entries, first, end, table.entries[i].address);
  }

  lemma FoundIsInItsPage(table: Table, i: nat)
    requires i < |table.entries| && FindEntry(table, table.entries[i].address) == Some(i)
    ensures InItsPage(table, i)
  {
    InItsPageExactly(table, i);
  }

  /** ... is exactly what makes a sorted table find all of its entries. */
  lemma GeneratedTablesFindTheirEntries(table: Table)
    requires Increasing(table.entries)
    ensures Generated(table) <==> FindsItsEntries(table)
  {
    forall i | 0 <= i < |table.entries| && InItsPage(table, i)
      ensures FindEntry(table, table.entries[i].address) == Some(i)
    {
      EntryIsFound(table, i);
    }
    forall i | 0 <= i < |table.entries| && FindEntry(table, table.entries[i].address) == Some(i)
      ensures InItsPage(table, i)
    {
      FoundIsInItsPage(table, i);
    }
  }
}
