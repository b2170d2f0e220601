/** The fast paths of guest memory: tables of encoded biases in front of one page table, and the stores
    and loads that go through them. A host pointer is an index into `ram`. */
module GuestMemory {
  import opened Basics
  import opened ByteOrder

  const PAGE_SIZE: nat := 0x10_0000
  const PAGE_COUNT: nat := 4096
  const SUB_PAGE_SIZE: nat := 4096
  const SUB_PAGES_PER_PAGE: nat := 256
  const SUB_PAGE_COUNT: nat := 0x10_0000
  const GUEST_SPAN: nat := 0x1_0000_0000
  const POINTER_SPAN: nat := 0x1_0000_0000_0000_0000
  const MAX_FAST_SCALAR_SIZE: nat := 8

  datatype PageEntry = PageEntry(base: Option<nat>, limit: nat)

  predicate IsScalarSize(size: nat) {
    size == 1 || size == 2 || size == 4 || size == 8
  }

  /** `(encodedBias - 1) + address`, in the width of a host pointer. */
  function Decode(encodedBias: nat, address: nat): nat
    requires encodedBias != 0
  {
    (encodedBias - 1 + address) % POINTER_SPAN
  }

  class Memory {
    const ram: array<Byte>
    var pageTable: seq<PageEntry>
    var fullPageBias: seq<nat>
    var fullReadablePageBias: seq<nat>
    var fullWritablePageBias: seq<nat>
    var sparseWritablePageTables: seq<Option<seq<nat>>>
    var executableWriteGuardPages: seq<bool>
    var executableWriteGuardCoarsePages: seq<bool>

    // ----------------------------------------------------------------------- what the tables promise

    /** The plain reference: where the page table puts a guest address. */
    ghost function HostOf(address: nat): Option<nat>
      requires Shaped() && address < GUEST_SPAN
      reads this
    {
      var entry := pageTable[address / PAGE_SIZE];
      if entry.base.Some? && address % PAGE_SIZE < entry.limit
      then Some(entry.base.value + address % PAGE_SIZE) else None
    }

    ghost predicate Shaped()
      reads this
    {
      |pageTable| == PAGE_COUNT && |fullPageBias| == PAGE_COUNT && |fullReadablePageBias| == PAGE_COUNT &&
      |fullWritablePageBias| == PAGE_COUNT && |sparseWritablePageTables| == PAGE_COUNT &&
      |executableWriteGuardPages| == SUB_PAGE_COUNT && |executableWriteGuardCoarsePages| == PAGE_COUNT &&
      ram.Length + PAGE_SIZE < POINTER_SPAN &&
      forall p | 0 <= p < PAGE_COUNT && pageTable[p].base.Some? ::
        pageTable[p].limit <= PAGE_SIZE && pageTable[p].base.value + pageTable[p].limit <= ram.Length
    }

    /** A full page followed on the host by the next one; the last page of the address space has none. */
    predicate Contiguous(p: nat)
      requires Shaped() && p < PAGE_COUNT
      reads this
    {
      p + 1 < PAGE_COUNT && pageTable[p].base.Some? && pageTable[p].limit == PAGE_SIZE &&
      pageTable[p + 1].base == Some(pageTable[p].base.value + PAGE_SIZE) &&
      pageTable[p + 1].limit >= MAX_FAST_SCALAR_SIZE - 1
    }

    /** A contiguous page and its bias. */
    ghost predicate EncodesPage(bias: nat, p: nat)
      requires Shaped() && p < PAGE_COUNT
      reads this
    {
      bias != 0 && Contiguous(p) && Decode(bias, p * PAGE_SIZE) == pageTable[p].base.value
    }

    ghost predicate Valid()
      reads this
    {
      Shaped() &&
      (forall p | 0 <= p < PAGE_COUNT && fullPageBias[p] != 0 :: EncodesPage(fullPageBias[p], p)) &&
      (forall p | 0 <= p < PAGE_COUNT && fullReadablePageBias[p] != 0 ::
         EncodesPage(fullReadablePageBias[p], p)) &&
      (forall p | 0 <= p < PAGE_COUNT && fullWritablePageBias[p] != 0 ::
         EncodesPage(fullWritablePageBias[p], p)) &&
      // a page with a writable bias holds no executable byte
      (forall sub | 0 <= sub < SUB_PAGE_COUNT && fullWritablePageBias[sub / SUB_PAGES_PER_PAGE] != 0 ::
         !executableWriteGuardPages[sub]) &&
      (forall p | 0 <= p < PAGE_COUNT && sparseWritablePageTables[p].Some? ::
         |sparseWritablePageTables[p].value| == SUB_PAGES_PER_PAGE &&
         forall k | 0 <= k < SUB_PAGES_PER_PAGE && sparseWritablePageTables[p].value[k] != 0 ::
           EncodesPage(sparseWritablePageTables[p].value[k], p))
    }

    /** The host byte of the `i`-th byte of an access. */
    ghost function HostByte(address: nat, i: nat): Option<nat>
      requires Shaped() && address + i < GUEST_SPAN
      reads this
    {
      HostOf(address + i)
    }

    ghost predicate GuardedByte(address: nat, i: nat)
      requires Shaped() && address + i < GUEST_SPAN
      reads this
    {
      executableWriteGuardPages[(address + i) / SUB_PAGE_SIZE]
    }

    /** The access lies at `pointer` on the host, byte for byte. */
    ghost predicate Resolves(address: nat, length: nat, pointer: nat)
      requires Shaped()
      reads this
    {
      address + length <= GUEST_SPAN && pointer + length <= ram.Length &&
      forall i | 0 <= i < length :: HostByte(address, i) == Some(pointer + i)
    }

    lemma BiasResolves(bias: nat, address: nat, length: nat)
      requires Shaped() && address < GUEST_SPAN && length <= MAX_FAST_SCALAR_SIZE
      requires EncodesPage(bias, address / PAGE_SIZE)
      ensures Resolves(address, length, Decode(bias, address))
    {
      var p, offset := address / PAGE_SIZE, address % PAGE_SIZE;
      var base := pageTable[p].base.value;
      assert address == p * PAGE_SIZE + offset;
      DecodeShifts(bias, p * PAGE_SIZE, offset, base);
      forall i | 0 <= i < length ensures HostByte(address, i) == Some(base + offset + i) {
        if offset + i < PAGE_SIZE {
        } else {
        }
      }
    }

    /** What the lookup answers on: a short access of a page in the coarse table, or one within its page entry. */
    predicate Readable(address: nat, length: nat)
      requires Shaped() && address < GUEST_SPAN
      reads this
    {
      (length <= MAX_FAST_SCALAR_SIZE && fullPageBias[address / PAGE_SIZE] != 0) ||
      (pageTable[address / PAGE_SIZE].base.Some? &&
       address % PAGE_SIZE + length <= pageTable[address / PAGE_SIZE].limit)
    }

    /** The host pointer of an access, from the coarse table or by checking the page entry. */
    method TryGetPointerFast(address: nat, length: nat) returns (pointer: Option<nat>)
      requires Valid() && address < GUEST_SPAN
      ensures pointer.Some? <==> Readable(address, length)
      ensures pointer.Some? ==> Resolves(address, length, pointer.value)
    {
      var page := address / PAGE_SIZE;
      if length <= 8 {
        var encodedBias := fullPageBias[page];
        if encodedBias != 0 {
          BiasResolves(encodedBias, address, length);
          return Some(Decode(encodedBias, address));
        }
      }
      var offset := address % PAGE_SIZE;
      var entry := pageTable[page];
      if entry.base.None? || offset + length > entry.limit { return None; }
      EntryResolves(address, length);
      return Some(entry.base.value + offset);
    }

    lemma EntryResolves(address: nat, length: nat)
      requires Shaped() && address < GUEST_SPAN
      requires var entry := pageTable[address / PAGE_SIZE];
        entry.base.Some? && address % PAGE_SIZE + length <= entry.limit
      ensures Resolves(address, length, pageTable[address / PAGE_SIZE].base.value + address % PAGE_SIZE)
    {
      var p, offset := address / PAGE_SIZE, address % PAGE_SIZE;
      forall i | 0 <= i < length
        ensures HostByte(address, i) == Some(pageTable[p].base.value + offset + i)
      {
      }
    }

    /** No byte of the access lies in an executable 4 KiB page. */
    ghost predicate Unguarded(address: nat, length: nat)
      requires Shaped() && address + length <= GUEST_SPAN
      reads this
    {
      forall i | 0 <= i < length :: !GuardedByte(address, i)
    }

    /** What the lookup answers on: the coarse table, the sparse table or the exact page entry. */
    predicate Writable(address: nat, length: nat)
      requires Shaped() && 1 <= length <= 8 && address + length <= GUEST_SPAN
      requires forall p | 0 <= p < PAGE_COUNT && sparseWritablePageTables[p].Some? ::
        |sparseWritablePageTables[p].value| == SUB_PAGES_PER_PAGE
      reads this
    {
      var page, last := address / PAGE_SIZE, address + length - 1;
      if fullWritablePageBias[page] != 0 then
        last / PAGE_SIZE == page || !executableWriteGuardPages[last / SUB_PAGE_SIZE]
      else
        !executableWriteGuardPages[address / SUB_PAGE_SIZE] &&
        !executableWriteGuardPages[last / SUB_PAGE_SIZE] &&
        match sparseWritablePageTables[page]
        case Some(table) => table[address % PAGE_SIZE / SUB_PAGE_SIZE] != 0
        case None => pageTable[page].base.Some? && address % PAGE_SIZE + length <= pageTable[page].limit
    }

    lemma EndpointsDecideGuards(address: nat, length: nat)
      requires Shaped() && 1 <= length <= 8 && address + length <= GUEST_SPAN
      requires !executableWriteGuardPages[address / SUB_PAGE_SIZE]
      requires !executableWriteGuardPages[(address + length - 1) / SUB_PAGE_SIZE]
      ensures Unguarded(address, length)
    {
    }

    /** Succeeds on exactly the writable accesses, with the host pointer the page table gives; no byte
        behind it is guarded. */
    method TryGetWritablePointerFast(address: nat, length: nat) returns (pointer: Option<nat>)
      requires Valid() && address < GUEST_SPAN
      ensures pointer.Some? <==>
        1 <= length <= 8 && address + length <= GUEST_SPAN && Writable(address, length)
      ensures pointer.Some? ==> Resolves(address, length, pointer.value) && Unguarded(address, length)
    {
      if length == 0 || length > 8 || address > GUEST_SPAN - 1 - (length - 1) { return None; }
      pointer := None;
      var coarsePage := address / PAGE_SIZE;
      var encodedBias := fullWritablePageBias[coarsePage];
      var endAddress := address + (length - 1);
      var firstExactPage, lastExactPage := address / SUB_PAGE_SIZE, endAddress / SUB_PAGE_SIZE;
      assert firstExactPage / SUB_PAGES_PER_PAGE == coarsePage;
      assert lastExactPage / SUB_PAGES_PER_PAGE == endAddress / PAGE_SIZE;
      if encodedBias != 0 && endAddress / PAGE_SIZE != coarsePage && executableWriteGuardPages[lastExactPage] {
        return None;
      }
      if encodedBias == 0 {
        var subTable := sparseWritablePageTables[coarsePage];
        if subTable.Some? {
          encodedBias := subTable.value[address % PAGE_SIZE / SUB_PAGE_SIZE];
          if encodedBias == 0 { return None; }
        } else {
          var offset := address % PAGE_SIZE;
          var entry := pageTable[coarsePage];
          if entry.base.None? || offset + length > entry.limit { return None; }
          EntryResolves(address, length);
          pointer := Some(entry.base.value + offset);
        }
        if executableWriteGuardPages[firstExactPage] ||
           (lastExactPage != firstExactPage && executableWriteGuardPages[lastExactPage]) {
          return None;
        }
        EndpointsDecideGuards(address, length);
        if pointer.Some? { return; }
      }
      EndpointsDecideGuards(address, length);
      BiasResolves(encodedBias, address, length);
      pointer := Some(Decode(encodedBias, address));
    }

    // ------------------------------------------------------------------------------ stores and loads

    /** `memcpy` of a scalar to the host. */
    method Store(pointer: nat, bytes: seq<Byte>)
      requires pointer + |bytes| <= ram.Length
      modifies ram
      ensures ram[pointer..pointer + |bytes|] == bytes
      ensures forall h | 0 <= h < ram.Length && !(pointer <= h < pointer + |bytes|) :: ram[h] == old(ram[h])
    {
      for i := 0 to |bytes|
        invariant ram[pointer..pointer + i] == bytes[..i]
        invariant forall h | 0 <= h < ram.Length && !(pointer <= h < pointer + i) :: ram[h] == old(ram[h])
      {
        ram[pointer + i] := bytes[i];
        assert ram[pointer..pointer + i + 1] == ram[pointer..pointer + i] + [bytes[i]];
      }
    }

    /** The simple store: each byte of the value, most significant first, at the host byte the page table
        gives for its address, and nothing else. */
    twostate predicate StoredAsReference(address: nat, bytes: seq<Byte>)
      requires Shaped() && address + |bytes| <= GUEST_SPAN
      reads this, ram
    {
      (forall i | 0 <= i < |bytes| ::
         HostByte(address, i).Some? && ram[HostByte(address, i).value] == bytes[i]) &&
      (forall h | 0 <= h < ram.Length && !Reaches(address, |bytes|, h) :: ram[h] == old(ram[h]))
    }

    /** Some byte of the access lies at this host byte, under whatever guest address. */
    ghost predicate Reaches(address: nat, length: nat, h: nat)
      requires Shaped() && address + length <= GUEST_SPAN
      reads this
    {
      exists i | 0 <= i < length :: HostByte(address, i) == Some(h)
    }

    lemma ReachesItsRange(address: nat, length: nat, pointer: nat)
      requires Shaped() && address + length <= GUEST_SPAN && Resolves(address, length, pointer)
      ensures forall h | 0 <= h < ram.Length :: Reaches(address, length, h) <==> pointer <= h < pointer + length
    {
      forall h | pointer <= h < pointer + length ensures Reaches(address, length, h) {
        assert HostByte(address, h - pointer) == Some(h);
      }
    }

    method StoreAt(pointer: nat, address: nat, bytes: seq<Byte>)
      requires Shaped() && address + |bytes| <= GUEST_SPAN && Resolves(address, |bytes|, pointer)
      modifies ram
      ensures StoredAsReference(address, bytes)
    {
      ReachesItsRange(address, |bytes|, pointer);
      Store(pointer, bytes);
      ghost var written := ram[pointer..pointer + |bytes|];
      assert forall i | 0 <= i < |bytes| :: written[i] == ram[pointer + i];
    }

    /** The fast store is the simple store, on every tier, and never reaches an executable page; when it
        does not succeed it writes nothing. */
    method TryWriteGuestScalar(address: nat, size: nat, value: nat) returns (ok: bool)
      requires Valid() && address < GUEST_SPAN && IsScalarSize(size) && value < Pow256(size)
      modifies ram
      ensures ok <==> address + size <= GUEST_SPAN && (address + size - 1) / PAGE_SIZE == address / PAGE_SIZE &&
                      Writable(address, size)
      ensures ok ==> |BigEndian(value, size)| == size && StoredAsReference(address, BigEndian(value, size))
      ensures ok ==> Unguarded(address, size)
      ensures !ok ==> ram[..] == old(ram[..])
    {
      if address > GUEST_SPAN - 1 - (size - 1) { return false; }
      var coarsePage := address / PAGE_SIZE;
      var endAddress := address + (size - 1);
      if endAddress / PAGE_SIZE != coarsePage { return false; }
      var encodedBias := fullWritablePageBias[coarsePage];
      var pointer: nat;
      if encodedBias != 0 {
        assert address / SUB_PAGE_SIZE / SUB_PAGES_PER_PAGE == coarsePage;
        assert endAddress / SUB_PAGE_SIZE / SUB_PAGES_PER_PAGE == coarsePage;
        EndpointsDecideGuards(address, size);
        BiasResolves(encodedBias, address, size);
        pointer := Decode(encodedBias, address);
      } else {
        var p := TryGetWritablePointerFast(address, size);
        if p.None? { return false; }
        pointer := p.value;
      }
      SwappedIsBigEndian(value, size);
      var swapped := MaybeByteSwap(value, size);
      StoreAt(pointer, address, ToHost(swapped, size));
      return true;
    }

    method TryReadGuestScalar(address: nat, size: nat) returns (value: Option<nat>)
      requires Valid() && IsScalarSize(size) && address < GUEST_SPAN
      ensures value.Some? <==> fullReadablePageBias[address / PAGE_SIZE] != 0
      ensures value.Some? ==> address + size <= GUEST_SPAN && Mapped(address, size)
      ensures value.Some? ==> value.value == LoadValue(ReferenceBytes(address, size))
    {
      var encodedBias := fullReadablePageBias[address / PAGE_SIZE];
      if encodedBias == 0 { return None; }
      BiasResolves(encodedBias, address, size);
      var pointer := Decode(encodedBias, address);
      var bytes := ram[pointer..pointer + size];
      ReferenceIsRange(address, size, pointer);
      return Some(MaybeByteSwap(FromHost(bytes), size));
    }

    ghost predicate Mapped(address: nat, size: nat)
      requires Shaped() && address + size <= GUEST_SPAN
      reads this
    {
      forall i | 0 <= i < size :: HostByte(address, i).Some?
    }

    /** The bytes of an access as the page table finds them. */
    ghost function ReferenceBytes(address: nat, size: nat): (bytes: seq<Byte>)
      requires Shaped() && address + size <= GUEST_SPAN
      requires Mapped(address, size)
      reads this, ram
      ensures |bytes| == size
      ensures forall i | 0 <= i < size :: bytes[i] == ram[HostByte(address, i).value]
    {
      if size == 0 then []
      else ReferenceBytes(address, size - 1) + [ram[HostByte(address, size - 1).value]]
    }

    lemma ReferenceIsRange(address: nat, size: nat, pointer: nat)
      requires Shaped() && address + size <= GUEST_SPAN && Resolves(address, size, pointer)
      ensures ReferenceBytes(address, size) == ram[pointer..pointer + size]
    {
    }

    /** What was stored is read back. */
    method StoreThenLoad(address: nat, size: nat, value: nat) returns (ok: bool, back: Option<nat>)
      requires Valid() && IsScalarSize(size) && address < GUEST_SPAN && value < Pow256(size)
      modifies ram
      ensures ok && back.Some? ==> back.value == value
    {
      ok := TryWriteGuestScalar(address, size, value);
      back := TryReadGuestScalar(address, size);
      if ok && back.Some? {
        assert ReferenceBytes(address, size) == BigEndian(value, size);
        LoadUndoesStore(value, size);
      }
    }

    lemma MappedHalves(address: nat, half: nat)
      requires Shaped() && address + 2 * half <= GUEST_SPAN && Mapped(address, 2 * half)
      ensures Mapped(address, half) && Mapped(address + half, half)
      ensures ReferenceBytes(address, 2 * half) ==
              ReferenceBytes(address, half) + ReferenceBytes(address + half, half)
    {
      forall i {:trigger HostByte(address + half, i)} | 0 <= i < half
        ensures HostByte(address + half, i) == HostByte(address, half + i) && HostByte(address, half + i).Some?
      {
      }
      assert Mapped(address + half, half);
      var whole, second := ReferenceBytes(address, 2 * half), ReferenceBytes(address + half, half);
      forall i | 0 <= i < half ensures whole[half + i] == second[i] {
        assert HostByte(address + half, i) == HostByte(address, half + i);
      }
    }

    /** `memcpy` from a host pointer resolved before, if there is one. */
    method ReadResolvedScalar(host: Option<nat>, rangeOffset: nat, size: nat) returns (value: Option<nat>)
      requires IsScalarSize(size) && (host.Some? ==> host.value + rangeOffset + size <= ram.Length)
      ensures value.Some? <==> host.Some?
      ensures value.Some? ==>
        value.value == LoadValue(ram[host.value + rangeOffset..host.value + rangeOffset + size])
    {
      if host.None? { return None; }
      var bytes := ram[host.value + rangeOffset..host.value + rangeOffset + size];
      return Some(MaybeByteSwap(FromHost(bytes), size));
    }

    /** Both scalars lie behind the resolved pointer, one after the other. */
    ghost predicate PairAt(address: nat, half: nat, host: nat, rangeOffset: nat)
      requires Shaped()
      reads this
    {
      Resolves(address, 2 * half, host + rangeOffset)
    }

    /** A packed load of two adjacent scalars through a resolved pointer gives what two loads of them at
        their guest addresses give, whatever addresses the pointer was resolved from. */
    method ReadResolvedPair(host: Option<nat>, rangeOffset: nat, half: nat) returns (pair: Option<(nat, nat)>)
      requires Shaped() && (half == 2 || half == 4)
      requires host.Some? ==> host.value + rangeOffset + 2 * half <= ram.Length
      ensures pair.Some? <==> host.Some?
      ensures forall address: nat | pair.Some? && PairAt(address, half, host.value, rangeOffset) ::
        Mapped(address, half) && Mapped(address + half, half) &&
        pair.value == (LoadValue(ReferenceBytes(address, half)), LoadValue(ReferenceBytes(address + half, half)))
    {
      var packed := ReadResolvedScalar(host, rangeOffset, 2 * half);
      if packed.None? { return None; }
      var shift := if half == 2 then 0x1_0000 else 0x1_0000_0000;
      assert shift == Pow256(half) by { assert Pow256(4) == 0x1_0000_0000 && Pow256(2) == 0x1_0000; }
      pair := Some((packed.value / shift, packed.value % shift));
      forall address: nat | PairAt(address, half, host.value, rangeOffset)
        ensures Mapped(address, half) && Mapped(address + half, half)
        ensures pair.value ==
                (LoadValue(ReferenceBytes(address, half)), LoadValue(ReferenceBytes(address + half, half)))
      {
        PairIsTwoLoads(address, half, host.value + rangeOffset);
      }
    }

    lemma PairIsTwoLoads(address: nat, half: nat, pointer: nat)
      requires Shaped() && half > 0 && Resolves(address, 2 * half, pointer)
      ensures Mapped(address, half) && Mapped(address + half, half)
      ensures var packed := LoadValue(ram[pointer..pointer + 2 * half]);
        packed / Pow256(half) == LoadValue(ReferenceBytes(address, half)) &&
        packed % Pow256(half) == LoadValue(ReferenceBytes(address + half, half))
    {
      MappedHalves(address, half);
      var first, second := ReferenceBytes(address, half), ReferenceBytes(address + half, half);
      RangeIsHalves(address, half, pointer);
      PairLoadIsTwoLoads(first, second);
    }

    lemma RangeIsHalves(address: nat, half: nat, pointer: nat)
      requires Shaped() && Resolves(address, 2 * half, pointer) && Mapped(address, half) && Mapped(address + half, half)
      ensures ram[pointer..pointer + 2 * half] == ReferenceBytes(address, half) + ReferenceBytes(address + half, half)
    {
      ReferenceIsRange(address, 2 * half, pointer);
      MappedHalves(address, half);
    }

    // ------------------------------------------------------------------------------ building the tables

    /** The bias of a page, in the width of a host pointer, plus one; zero if it has none. */
    function PageBias(p: nat): nat
      requires Shaped() && p < PAGE_COUNT
      reads this
    {
      if Contiguous(p) then (pageTable[p].base.value + POINTER_SPAN - p * PAGE_SIZE + 1) % POINTER_SPAN else 0
    }

    lemma PageBiasEncodes(p: nat)
      requires Shaped() && p < PAGE_COUNT && PageBias(p) != 0
      ensures EncodesPage(PageBias(p), p)
    {
    }

    /** A page has a bias exactly if it is contiguous, unless its host base is the byte before its guest address,
        whose encoding is zero. */
    lemma HasBiasExactly(p: nat)
      requires Shaped() && p < PAGE_COUNT
      ensures PageBias(p) != 0 <==> Contiguous(p) && pageTable[p].base.value + 1 != p * PAGE_SIZE
    {
      if Contiguous(p) {
        var sum := pageTable[p].base.value + POINTER_SPAN - p * PAGE_SIZE + 1;
        assert 0 < sum < 2 * POINTER_SPAN;
      }
    }

    /** The biases `BuildPageTable` derives from the page entries. */
    method BuildFullPageBias()
      requires Shaped()
      modifies this`fullPageBias
      ensures Shaped() && forall p | 0 <= p < PAGE_COUNT :: fullPageBias[p] == PageBias(p)
    {
      fullPageBias := seq(PAGE_COUNT, _ => 0);
      for page := 0 to PAGE_COUNT - 1
        invariant Shaped()
        invariant forall p | 0 <= p < page :: fullPageBias[p] == PageBias(p)
        invariant forall p | page <= p < PAGE_COUNT :: fullPageBias[p] == 0
      {
        var current, next := pageTable[page], pageTable[page + 1];
        if current.base.Some? && current.limit == PAGE_SIZE && next.base.Some? &&
           next.limit >= MAX_FAST_SCALAR_SIZE - 1 && next.base.value == current.base.value + PAGE_SIZE {
          var bias := (current.base.value + POINTER_SPAN - page * PAGE_SIZE + 1) % POINTER_SPAN;
          fullPageBias := fullPageBias[page := bias];
        }
      }
    }

    /** A 1 MiB page with an executable 4 KiB page in it is marked so. */
    ghost predicate CoarseCoversExact()
      requires Shaped()
      reads this
    {
      forall sub | 0 <= sub < SUB_PAGE_COUNT && executableWriteGuardPages[sub] ::
        executableWriteGuardCoarsePages[sub / SUB_PAGES_PER_PAGE]
    }

    predicate ExecutableSub(page: nat, k: nat)
      requires |executableWriteGuardPages| == SUB_PAGE_COUNT && page < PAGE_COUNT && k < SUB_PAGES_PER_PAGE
      reads this`executableWriteGuardPages
    {
      executableWriteGuardPages[page * SUB_PAGES_PER_PAGE + k]
    }

    predicate SparseBuilt(p: nat, sparse: Option<seq<nat>>)
      requires |executableWriteGuardPages| == SUB_PAGE_COUNT && p < PAGE_COUNT && p < |fullPageBias|
      reads this`executableWriteGuardPages, this`fullPageBias
    {
      sparse.Some? ==> |sparse.value| == SUB_PAGES_PER_PAGE && forall k | 0 <= k < SUB_PAGES_PER_PAGE ::
        sparse.value[k] == if ExecutableSub(p, k) then 0 else fullPageBias[p]
    }

    /** The page holds executable 4 KiB pages and others. */
    predicate Mixed(page: nat)
      requires |executableWriteGuardPages| == SUB_PAGE_COUNT && page < PAGE_COUNT
      reads this`executableWriteGuardPages
    {
      exists j, k | 0 <= j < SUB_PAGES_PER_PAGE && 0 <= k < SUB_PAGES_PER_PAGE ::
        ExecutableSub(page, j) && !ExecutableSub(page, k)
    }

    /** The sparse table of a page that mixes executable and data pages. */
    method BuildSparse(page: nat) returns (table: Option<seq<nat>>)
      requires Shaped() && page < PAGE_COUNT
      ensures SparseBuilt(page, table)
      ensures table.Some? <==> Mixed(page)
    {
      var sparse: seq<nat> := [];
      var hasExecutable, hasWritable := false, false;
      for sub := 0 to SUB_PAGES_PER_PAGE
        invariant |sparse| == sub
        invariant forall k | 0 <= k < sub :: sparse[k] == if ExecutableSub(page, k) then 0 else fullPageBias[page]
        invariant hasExecutable <==> exists k | 0 <= k < sub :: ExecutableSub(page, k)
        invariant hasWritable <==> exists k | 0 <= k < sub :: !ExecutableSub(page, k)
      {
        var executable := ExecutableSub(page, sub);
        hasExecutable, hasWritable := hasExecutable || executable, hasWritable || !executable;
        sparse := sparse + [if executable then 0 else fullPageBias[page]];
      }
      return if hasExecutable && hasWritable then Some(sparse) else None;
    }

    /** A deferred read overlaps the page. */
    static ghost predicate Deferred(ranges: seq<(nat, nat)>, p: nat) {
      exists i | 0 <= i < |ranges| :: Overlaps(ranges[i], p)
    }

    static predicate Overlaps(read: (nat, nat), p: nat) {
      read.1 > 0 && read.0 / PAGE_SIZE <= p <= (read.0 + read.1 - 1) / PAGE_SIZE
    }

    /** Pages under a deferred read have no readable bias. */
    method ClearDeferred(ranges: seq<(nat, nat)>)
      requires Shaped() && forall r | r in ranges :: r.1 > 0 && r.0 + r.1 <= GUEST_SPAN
      modifies this`fullReadablePageBias
      ensures Shaped() && forall p | 0 <= p < PAGE_COUNT ::
        fullReadablePageBias[p] == if Deferred(ranges, p) then 0 else old(fullReadablePageBias)[p]
    {
      for i := 0 to |ranges|
        invariant Shaped()
        invariant forall p | 0 <= p < PAGE_COUNT ::
          fullReadablePageBias[p] == if Deferred(ranges[..i], p) then 0 else old(fullReadablePageBias)[p]
      {
        assert ranges[i] in ranges;
        DeferredOnceMore(ranges, i);
        ghost var before := fullReadablePageBias;
        var (start, length) := ranges[i];
        for page := start / PAGE_SIZE to (start + length - 1) / PAGE_SIZE + 1
          invariant Shaped()
          invariant forall p | 0 <= p < PAGE_COUNT ::
            fullReadablePageBias[p] == if start / PAGE_SIZE <= p < page then 0 else before[p]
        {
          fullReadablePageBias := fullReadablePageBias[page := 0];
        }
      }
      assert ranges[..|ranges|] == ranges;
    }

    static lemma DeferredOnceMore(ranges: seq<(nat, nat)>, i: nat)
      requires i < |ranges|
      ensures forall p: nat :: Deferred(ranges[..i + 1], p) <==> Deferred(ranges[..i], p) || Overlaps(ranges[i], p)
    {
      assert ranges[..i + 1] == ranges[..i] + [ranges[i]];
      forall p: nat | Overlaps(ranges[i], p) ensures Deferred(ranges[..i + 1], p) {
        assert Overlaps(ranges[..i + 1][i], p);
      }
      forall p: nat | Deferred(ranges[..i], p) ensures Deferred(ranges[..i + 1], p) {
        var k :| 0 <= k < i && Overlaps(ranges[..i][k], p);
        assert Overlaps(ranges[..i + 1][k], p);
      }
    }

    ghost predicate TablesBuilt(page: nat)
      requires Shaped() && page <= PAGE_COUNT
      reads this
    {
      (forall p | 0 <= p < page ::
        fullWritablePageBias[p] == if executableWriteGuardCoarsePages[p] then 0 else fullPageBias[p]) &&
      (forall p | page <= p < PAGE_COUNT :: sparseWritablePageTables[p].None?) &&
      (forall p | 0 <= p < page ::
        sparseWritablePageTables[p].Some? <==>
        executableWriteGuardCoarsePages[p] && fullPageBias[p] != 0 && Mixed(p)) &&
      (forall p | 0 <= p < PAGE_COUNT :: SparseBuilt(p, sparseWritablePageTables[p]))
    }

    /** The writable biases, and the sparse tables of mixed pages. */
    method BuildWritable()
      requires Shaped()
      modifies this`fullWritablePageBias, this`sparseWritablePageTables
      ensures Shaped() && TablesBuilt(PAGE_COUNT)
    {
      fullWritablePageBias, sparseWritablePageTables := seq(PAGE_COUNT, _ => 0), seq(PAGE_COUNT, _ => None);
      for page := 0 to PAGE_COUNT
        invariant Shaped() && TablesBuilt(page)
      {
        var bias, coarseExecutable := fullPageBias[page], executableWriteGuardCoarsePages[page];
        fullWritablePageBias := fullWritablePageBias[page := if coarseExecutable then 0 else bias];
        if coarseExecutable && bias != 0 {
          var sparse := BuildSparse(page);
          sparseWritablePageTables := sparseWritablePageTables[page := sparse];
        }
      }
    }

    /** Derives all tables of the fast paths from the page entries, the executable guards and the deferred
        ranges: they are what the tables are commented to be. */
    method RebuildFastPaths(deferred: seq<(nat, nat)>)
      requires Shaped() && CoarseCoversExact()
      requires forall r | r in deferred :: r.1 > 0 && r.0 + r.1 <= GUEST_SPAN
      modifies this`fullPageBias, this`fullReadablePageBias, this`fullWritablePageBias, this`sparseWritablePageTables
      ensures Valid() && Built(deferred)
    {
      BuildFullPageBias();
      fullReadablePageBias := fullPageBias;
      BuildWritable();
      ClearDeferred(deferred);
      forall p | 0 <= p < PAGE_COUNT && fullPageBias[p] != 0 ensures EncodesPage(fullPageBias[p], p) {
        PageBiasEncodes(p);
      }
    }

    // ---------------------------------------------------------------- which accesses the tables let through

    /** Every short access that starts in the page lies behind one base. */
    ghost predicate ResolvesFrom(p: nat, base: nat)
      requires Shaped() && p < PAGE_COUNT
      reads this
    {
      forall offset: nat, length: nat | offset < PAGE_SIZE && length <= 8 ::
        ResolvesAt(p, base, offset, length)
    }

    ghost predicate ResolvesAt(p: nat, base: nat, offset: nat, length: nat)
      requires Shaped()
      reads this
    {
      Resolves(p * PAGE_SIZE + offset, length, base + offset)
    }

    /** A page is contiguous exactly if a single base serves every short access that starts in it. */
    lemma ContiguousExactly(p: nat)
      requires Shaped() && p < PAGE_COUNT
      ensures Contiguous(p) <==> exists base: nat :: ResolvesFrom(p, base)
    {
      if Contiguous(p) {
        var base := pageTable[p].base.value;
        forall offset: nat, length: nat | offset < PAGE_SIZE && length <= 8
          ensures ResolvesAt(p, base, offset, length)
        {
          ContiguousResolves(p, offset, length);
        }
        assert ResolvesFrom(p, base);
      }
      if base: nat :| ResolvesFrom(p, base) {
        var address := p * PAGE_SIZE + (PAGE_SIZE - 1);
        assert ResolvesAt(p, base, PAGE_SIZE - 1, 8);
        assert HostByte(address, 0) == Some(base + (PAGE_SIZE - 1) + 0);
        assert HostByte(address, 7) == Some(base + (PAGE_SIZE - 1) + 7);
      }
    }

    lemma ContiguousResolves(p: nat, offset: nat, length: nat)
      requires Shaped() && p < PAGE_COUNT && Contiguous(p) && offset < PAGE_SIZE && length <= 8
      ensures Resolves(p * PAGE_SIZE + offset, length, pageTable[p].base.value + offset)
    {
      var address, base := p * PAGE_SIZE + offset, pageTable[p].base.value;
      forall i | 0 <= i < length ensures HostByte(address, i) == Some(base + offset + i) {
        if offset + i < PAGE_SIZE {
        } else {
        }
      }
    }

    /** The tables are those derived from the page entries, the guards and the deferred ranges. */
    ghost predicate Built(deferred: seq<(nat, nat)>)
      requires Shaped()
      reads this
    {
      CoarseCoversExact() && TablesBuilt(PAGE_COUNT) &&
      forall p | 0 <= p < PAGE_COUNT ::
        fullPageBias[p] == PageBias(p) && fullReadablePageBias[p] == if Deferred(deferred, p) then 0 else PageBias(p)
    }

    /** The page entry holds the whole access. */
    predicate WithinEntry(address: nat, length: nat)
      requires Shaped() && address < GUEST_SPAN
      reads this
    {
      var entry := pageTable[address / PAGE_SIZE];
      entry.base.Some? && address % PAGE_SIZE + length <= entry.limit
    }

    /** On built tables a short read of memory goes through exactly if the page's bias serves it or the page entry
        holds it, and a scalar read exactly if the page has a bias and no deferred read touches it. */
    lemma ReadableWhenBuilt(deferred: seq<(nat, nat)>, address: nat, length: nat)
      requires Shaped() && Built(deferred) && address < GUEST_SPAN
      ensures Readable(address, length) <==>
              (length <= 8 && PageBias(address / PAGE_SIZE) != 0) || WithinEntry(address, length)
    {
    }

    /** A page that the coarse guards mark, though nothing in it is executable. */
    predicate MarkedForNothing(p: nat)
      requires Shaped() && p < PAGE_COUNT
      reads this
    {
      executableWriteGuardCoarsePages[p] && forall k | 0 <= k < SUB_PAGES_PER_PAGE :: !ExecutableSub(p, k)
    }

    lemma SubPageOf(address: nat)
      requires |executableWriteGuardPages| == SUB_PAGE_COUNT && address < GUEST_SPAN
      ensures ExecutableSub(address / PAGE_SIZE, address % PAGE_SIZE / SUB_PAGE_SIZE) ==
              executableWriteGuardPages[address / SUB_PAGE_SIZE]
    {
    }

    /** On built tables a short write goes through exactly if it touches no executable page and the page entry
        holds it or the page's bias serves it - which it does not if the coarse guards mark the page for nothing. */
    lemma WritableWhenBuilt(deferred: seq<(nat, nat)>, address: nat, length: nat)
      requires Valid() && Built(deferred) && 1 <= length <= 8 && address + length <= GUEST_SPAN
      ensures var p := address / PAGE_SIZE;
        Writable(address, length) <==>
        Unguarded(address, length) && (WithinEntry(address, length) || (PageBias(p) != 0 && !MarkedForNothing(p)))
    {
      UnguardedByEnds(address, length);
      if executableWriteGuardCoarsePages[address / PAGE_SIZE] {
        WritableWhenMarked(deferred, address, length);
      } else {
        WritableWhenUnmarked(deferred, address, length);
      }
    }

    lemma UnguardedByEnds(address: nat, length: nat)
      requires Shaped() && 1 <= length <= 8 && address + length <= GUEST_SPAN
      ensures Unguarded(address, length) <==> EndsUnguarded(address, length)
    {
      assert GuardedByte(address, 0) == executableWriteGuardPages[address / SUB_PAGE_SIZE];
      assert GuardedByte(address, length - 1) == executableWriteGuardPages[(address + length - 1) / SUB_PAGE_SIZE];
      if EndsUnguarded(address, length) { EndpointsDecideGuards(address, length); }
    }

    predicate EndsUnguarded(address: nat, length: nat)
      requires |executableWriteGuardPages| == SUB_PAGE_COUNT && 1 <= length && address + length <= GUEST_SPAN
      reads this`executableWriteGuardPages
    {
      !executableWriteGuardPages[address / SUB_PAGE_SIZE] &&
      !executableWriteGuardPages[(address + length - 1) / SUB_PAGE_SIZE]
    }

    lemma WritableWhenUnmarked(deferred: seq<(nat, nat)>, address: nat, length: nat)
      requires Valid() && Built(deferred) && 1 <= length <= 8 && address + length <= GUEST_SPAN
      requires !executableWriteGuardCoarsePages[address / PAGE_SIZE]
      ensures Writable(address, length) <==>
              EndsUnguarded(address, length) && (WithinEntry(address, length) || PageBias(address / PAGE_SIZE) != 0)
    {
      var p, last := address / PAGE_SIZE, address + length - 1;
      assert address / SUB_PAGE_SIZE / SUB_PAGES_PER_PAGE == p;
      assert last / SUB_PAGE_SIZE / SUB_PAGES_PER_PAGE == last / PAGE_SIZE;
      assert fullWritablePageBias[p] == PageBias(p);
      assert sparseWritablePageTables[p].None?;
    }

    lemma WritableWhenMarked(deferred: seq<(nat, nat)>, address: nat, length: nat)
      requires Valid() && Built(deferred) && 1 <= length <= 8 && address + length <= GUEST_SPAN
      requires executableWriteGuardCoarsePages[address / PAGE_SIZE]
      ensures var p := address / PAGE_SIZE;
        Writable(address, length) <==>
        EndsUnguarded(address, length) && (WithinEntry(address, length) || (PageBias(p) != 0 && !MarkedForNothing(p)))
    {
      var p, sub := address / PAGE_SIZE, address % PAGE_SIZE / SUB_PAGE_SIZE;
      SubPageOf(address);
      assert fullWritablePageBias[p] == 0;
      if !executableWriteGuardPages[address / SUB_PAGE_SIZE] {
        assert !ExecutableSub(p, sub);
        if sparseWritablePageTables[p].Some? {
          assert sparseWritablePageTables[p].value[sub] == fullPageBias[p] == PageBias(p);
          assert Mixed(p);
        } else if PageBias(p) != 0 {
          assert !Mixed(p);
          assert MarkedForNothing(p);
        }
      }
    }
  }

  lemma DecodeShifts(bias: nat, start: nat, offset: nat, base: nat)
    requires bias != 0 && Decode(bias, start) == base && base + offset < POINTER_SPAN
    ensures Decode(bias, start + offset) == base + offset
  {
    var x := bias - 1 + start;
    assert x == POINTER_SPAN * (x / POINTER_SPAN) + base;
    assert x + offset == POINTER_SPAN * (x / POINTER_SPAN) + (base + offset);
  }
}
