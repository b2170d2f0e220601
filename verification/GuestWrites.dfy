/** Per-granule write generations: when a stored digest of guest memory may be trusted. */
module GuestWrites {

  const WORD: nat := 0x1_0000_0000
  const GRANULE_SIZE: nat := 0x1_0000
  const TRACKED_SPAN: nat := 0x1800_0000
  const GRANULES: nat := 0x1800
  const UNTRACKED: nat := 0xFFFF_FFFF_FFFF_FFFF

  /** The physical address behind any cached, uncached or physical alias of guest RAM. */
  function Canonicalize(address: nat): nat {
    if address < 0x0180_0000 then address
    else if 0x1000_0000 <= address < 0x1800_0000 then address
    else if 0x8000_0000 <= address < 0x8180_0000 then address - 0x8000_0000
    else if 0x9000_0000 <= address < 0x9800_0000 then address - 0x8000_0000
    else if 0xC000_0000 <= address < 0xC180_0000 then address - 0xC000_0000
    else if 0xD000_0000 <= address < 0xD800_0000 then address - 0xC000_0000
    else address
  }

  /** A notified write; sizes and addresses are 32-bit. */
  datatype Notification = Notification(address: nat, size: nat)

  /** Both ends inclusive: the granules a notification bumps. */
  predicate Bumps(n: Notification, granule: nat) {
    var start := Canonicalize(n.address);
    n.size != 0 && start < TRACKED_SPAN &&
    start / GRANULE_SIZE <= granule <= (ClampedEnd(start + n.size) - 1) / GRANULE_SIZE
  }

  function ClampedEnd(end: nat): nat {
    if end < TRACKED_SPAN then end else TRACKED_SPAN
  }

  predicate Tracked(address: nat, nbytes: nat) {
    nbytes != 0 && Canonicalize(address) + nbytes <= TRACKED_SPAN
  }

  function FirstGranule(address: nat): nat {
    Canonicalize(address) / GRANULE_SIZE
  }

  function LastGranule(address: nat, nbytes: nat): nat
    requires nbytes != 0
  {
    (Canonicalize(address) + nbytes - 1) / GRANULE_SIZE
  }

  // ------------------------------------------------------------------------------------ the counters

  /** How often a granule has been bumped in all. */
  function Count(log: seq<Notification>, granule: nat): nat {
    if log == [] then 0
    else Count(log[..|log| - 1], granule) + if Bumps(log[|log| - 1], granule) then 1 else 0
  }

  /** The fold over the granules from `first` up to, not including, `end`. */
  function Fold(log: seq<Notification>, first: nat, end: nat): nat
    requires first <= end
  {
    if first == end then 0 else Fold(log, first, end - 1) + Count(log, end - 1) % WORD
  }

  function Generation(log: seq<Notification>, address: nat, nbytes: nat): nat {
    if !Tracked(address, nbytes) then UNTRACKED
    else
      Fold(log, FirstGranule(address), LastGranule(address, nbytes) + 1)
  }

  predicate CanSkipDigest(storedGeneration: nat, currentGeneration: nat) {
    currentGeneration != UNTRACKED && storedGeneration == currentGeneration
  }

  lemma {:induction false} FoldBound(log: seq<Notification>, first: nat, end: nat)
    requires first <= end
    ensures Fold(log, first, end) <= (end - first) * (WORD - 1)
    decreases end
  {
    if first == end {
    } else {
      FoldBound(log, first, end - 1);
    }
  }

  /** The folded sum of a tracked range stays far below the sentinel for untracked ones. */
  lemma GenerationIsNotTheSentinel(log: seq<Notification>, address: nat, nbytes: nat)
    ensures Generation(log, address, nbytes) == UNTRACKED <==> !Tracked(address, nbytes)
    ensures Tracked(address, nbytes) ==> Generation(log, address, nbytes) < UNTRACKED - 1
  {
    if Tracked(address, nbytes) {
      FoldBound(log, FirstGranule(address), LastGranule(address, nbytes) + 1);
    }
  }

  class Tracker {
    const generations: array<nat>
    ghost var log: seq<Notification>

    ghost predicate Valid()
      reads this, generations
    {
      generations.Length == GRANULES &&
      forall g | 0 <= g < GRANULES :: generations[g] == Count(log, g) % WORD
    }

    constructor ()
      ensures Valid() && log == [] && fresh(generations)
    {
      generations := new nat[GRANULES](_ => 0);
      log := [];
    }

    method NotifyWrite(address: nat, size: nat)
      requires Valid()
      modifies this, generations
      ensures Valid() && log == old(log) + [Notification(address, size)]
    {
      ghost var n := Notification(address, size);
      log := log + [n];
      assert log[..|log| - 1] == old(log);
      if size == 0 { return; }
      var start := Canonicalize(address);
      if start >= TRACKED_SPAN { return; }
      var end := start + size;
      var clampedEnd := if end < TRACKED_SPAN then end else TRACKED_SPAN;
      var firstGranule, lastGranule := start / GRANULE_SIZE, (clampedEnd - 1) / GRANULE_SIZE;
      assert firstGranule <= lastGranule < GRANULES;
      for granule := firstGranule to lastGranule + 1
        invariant log == old(log) + [n]
        invariant forall g | 0 <= g < GRANULES && !(firstGranule <= g < granule) ::
          generations[g] == old(generations[g])
        invariant forall g | firstGranule <= g < granule :: generations[g] == Count(log, g) % WORD
      {
        assert Count(log, granule) == Count(old(log), granule) + 1;
        OneMore(Count(old(log), granule));
        generations[granule] := (generations[granule] + 1) % WORD;
      }
    }

    method GenerationForRange(address: nat, nbytes: nat) returns (generation: int)
      requires Valid()
      ensures generation == Generation(log, address, nbytes)
    {
      if nbytes == 0 { return UNTRACKED; }
      var start := Canonicalize(address);
      var end := start + nbytes;
      if end > TRACKED_SPAN { return UNTRACKED; }
      var firstGranule, lastGranule := start / GRANULE_SIZE, (end - 1) / GRANULE_SIZE;
      var folded: int := 0;
      for granule := firstGranule to lastGranule + 1
        invariant folded == Fold(log, firstGranule, granule)
      {
        folded := folded + generations[granule];
      }
      GenerationIsNotTheSentinel(log, address, nbytes);
      return if folded == UNTRACKED then folded - 1 else folded;
    }
  }

  lemma OneMore(count: nat)
    ensures (count % WORD + 1) % WORD == (count + 1) % WORD
  {
  }

  // --------------------------------------------------------------------------- trusting a stored digest

  /** Some notification bumps a granule of the range. */
  ghost predicate AnyBump(log: seq<Notification>, first: nat, end: nat) {
    exists k, g | 0 <= k < |log| && first <= g < end :: Bumps(log[k], g)
  }

  lemma {:induction false} CountAppend(before: seq<Notification>, during: seq<Notification>, g: nat)
    ensures Count(before + during, g) == Count(before, g) + Count(during, g)
  {
    if during == [] {
      assert before + during == before;
    } else {
      var most := during[..|during| - 1];
      CountAppend(before, most, g);
      assert (before + during)[..|before + during| - 1] == before + most;
    }
  }

  lemma {:induction false} CountedMeansBumped(log: seq<Notification>, g: nat)
    ensures Count(log, g) == 0 <==> forall k | 0 <= k < |log| :: !Bumps(log[k], g)
  {
    if log == [] {
    } else {
      var most := log[..|log| - 1];
      CountedMeansBumped(most, g);
      assert forall k | 0 <= k < |most| :: most[k] == log[k];
    }
  }

  lemma Unwrapped(a: nat, b: nat)
    requires a + b < WORD
    ensures a % WORD == a && (a + b) % WORD == a + b
  {
  }

  /** Without wrap-around the fold only grows, and it grows exactly when something was bumped. */
  lemma {:induction false} FoldGrows(before: seq<Notification>, during: seq<Notification>, first: nat, end: nat)
    requires first <= end
    requires forall g | first <= g < end :: Count(before + during, g) < WORD
    ensures Fold(before, first, end) <= Fold(before + during, first, end)
    ensures Fold(before, first, end) == Fold(before + during, first, end) <==> NoneCounted(during, first, end)
    decreases end
  {
    if first == end {
    } else {
      FoldGrows(before, during, first, end - 1);
      CountAppend(before, during, end - 1);
      var c, d := Count(before, end - 1), Count(during, end - 1);
      Unwrapped(c, d);
      assert Fold(before, first, end) == Fold(before, first, end - 1) + c;
      assert Fold(before + during, first, end) == Fold(before + during, first, end - 1) + c + d;
    }
  }

  /** None of the range's counters has wrapped. */
  ghost predicate NoWrap(log: seq<Notification>, address: nat, nbytes: nat) {
    Tracked(address, nbytes) ==>
      forall g | FirstGranule(address) <= g <= LastGranule(address, nbytes) :: Count(log, g) < WORD
  }

  /** While no counter of the range has wrapped, a digest is trusted exactly when the range is tracked and
      nothing has bumped any of its granules since the generation was taken. */
  lemma SkipMeansUntouched(before: seq<Notification>, during: seq<Notification>, address: nat, nbytes: nat)
    requires NoWrap(before + during, address, nbytes)
    ensures CanSkipDigest(Generation(before, address, nbytes), Generation(before + during, address, nbytes)) <==>
            Tracked(address, nbytes) &&
            !AnyBump(during, FirstGranule(address), LastGranule(address, nbytes) + 1)
  {
    GenerationIsNotTheSentinel(before, address, nbytes);
    GenerationIsNotTheSentinel(before + during, address, nbytes);
    if Tracked(address, nbytes) {
      var first, end := FirstGranule(address), LastGranule(address, nbytes) + 1;
      FoldGrows(before, during, first, end);
      NothingCountedMeansNothingBumped(during, first, end);
    }
  }

  ghost predicate NoneCounted(log: seq<Notification>, first: nat, end: nat) {
    forall g | first <= g < end :: Count(log, g) == 0
  }

  lemma NothingCountedMeansNothingBumped(log: seq<Notification>, first: nat, end: nat)
    ensures NoneCounted(log, first, end) <==> !AnyBump(log, first, end)
  {
    if NoneCounted(log, first, end) {
      forall k, g | 0 <= k < |log| && first <= g < end ensures !Bumps(log[k], g) {
        assert Count(log, g) == 0;
        CountedMeansBumped(log, g);
      }
      assert !AnyBump(log, first, end);
    }
    if !AnyBump(log, first, end) {
      forall g | first <= g < end ensures Count(log, g) == 0 {
        forall k | 0 <= k < |log| ensures !Bumps(log[k], g) {}
        CountedMeansBumped(log, g);
      }
    }
  }

  // ------------------------------------------------------------------------- writes under other aliases

  /** The two memories of the console. */
  datatype Ram = Mem1 | Mem2

  datatype Window = Window(start: nat, end: nat, shows: Ram)

  /** The six places guest RAM appears at: each memory as it is, cached and uncached, from its first byte on. */
  const WINDOWS: seq<Window> := [
    Window(0, 0x0180_0000, Mem1), Window(0x1000_0000, 0x1800_0000, Mem2),
    Window(0x8000_0000, 0x8180_0000, Mem1), Window(0x9000_0000, 0x9800_0000, Mem2),
    Window(0xC000_0000, 0xC180_0000, Mem1), Window(0xD000_0000, 0xD800_0000, Mem2)]

  ghost predicate InOneWindow(address: nat, size: nat) {
    exists w | 0 <= w < |WINDOWS| :: WINDOWS[w].start <= address && address + size <= WINDOWS[w].end
  }

  /** What is seen at an address: the byte this far into this memory. */
  ghost predicate Shows(address: nat, ram: Ram, offset: nat) {
    exists w | 0 <= w < |WINDOWS| ::
      WINDOWS[w].start <= address < WINDOWS[w].end && WINDOWS[w].shows == ram && offset == address - WINDOWS[w].start
  }

  /** Two addresses of one byte. */
  ghost predicate Aliases(a: nat, b: nat) {
    exists ram, offset: nat :: Shows(a, ram, offset) && Shows(b, ram, offset)
  }

  /** Byte `i` at `a` and byte `j` at `b` are one. */
  ghost predicate SameByte(a: nat, i: nat, b: nat, j: nat) {
    Aliases(a + i, b + j)
  }

  /** Some byte written is, through whatever alias, a byte of the range. */
  ghost predicate Hits(n: Notification, address: nat, nbytes: nat) {
    exists i, j | 0 <= i < n.size && 0 <= j < nbytes :: SameByte(n.address, i, address, j)
  }

  /** An address in a window shows one byte of one memory, and its canonical address is that byte's physical one. */
  lemma CanonicalPlace(address: nat) returns (ram: Ram, offset: nat)
    requires InOneWindow(address, 1)
    ensures Shows(address, ram, offset)
    ensures forall r, o | Shows(address, r, o) :: r == ram && o == offset
    ensures Canonicalize(address) == offset + (if ram.Mem1? then 0 else 0x1000_0000)
    ensures offset < (if ram.Mem1? then 0x0180_0000 else 0x0800_0000)
  {
    var w :| 0 <= w < |WINDOWS| && WINDOWS[w].start <= address && address + 1 <= WINDOWS[w].end;
    ram, offset := WINDOWS[w].shows, address - WINDOWS[w].start;
  }

  /** Two addresses of RAM have one canonical address if and only if they show the same byte. */
  lemma AliasesShareTheirAddress(a: nat, b: nat)
    requires InOneWindow(a, 1) && InOneWindow(b, 1)
    ensures Canonicalize(a) == Canonicalize(b) <==> Aliases(a, b)
  {
    var ram, offset := CanonicalPlace(a);
    var other, there := CanonicalPlace(b);
    assert Aliases(a, b) <==> ram == other && offset == there;
  }

  /** An address that shows no RAM is left as it is. */
  lemma OutsideWindowsNothingMoves(address: nat)
    requires forall w | 0 <= w < |WINDOWS| :: !(WINDOWS[w].start <= address < WINDOWS[w].end)
    ensures Canonicalize(address) == address
  {
    assert !(WINDOWS[2].start <= address < WINDOWS[2].end) && !(WINDOWS[3].start <= address < WINDOWS[3].end);
    assert !(WINDOWS[4].start <= address < WINDOWS[4].end) && !(WINDOWS[5].start <= address < WINDOWS[5].end);
  }

  lemma WindowsAreLinear(address: nat, size: nat, i: nat)
    requires InOneWindow(address, size) && i < size
    ensures Canonicalize(address + i) == Canonicalize(address) + i && InOneWindow(address + i, 1)
    ensures Canonicalize(address) + size <= TRACKED_SPAN
  {
  }

  lemma GranuleBetween(start: nat, size: nat, i: nat)
    requires i < size
    ensures start / GRANULE_SIZE <= (start + i) / GRANULE_SIZE <= (start + size - 1) / GRANULE_SIZE
  {
  }

  /** A write and a range that share a canonical address share its granule. */
  lemma SharedAddressIsBumped(n: Notification, address: nat, nbytes: nat, i: nat, j: nat)
    requires i < n.size && j < nbytes && Canonicalize(n.address) + n.size <= TRACKED_SPAN
    requires Canonicalize(n.address) + i == Canonicalize(address) + j
    ensures FirstGranule(address) <= (Canonicalize(address) + j) / GRANULE_SIZE <= LastGranule(address, nbytes)
    ensures Bumps(n, (Canonicalize(address) + j) / GRANULE_SIZE)
  {
    GranuleBetween(Canonicalize(n.address), n.size, i);
    GranuleBetween(Canonicalize(address), nbytes, j);
  }

  lemma HitsAreBumps(n: Notification, address: nat, nbytes: nat)
    requires InOneWindow(n.address, n.size) && InOneWindow(address, nbytes) && Hits(n, address, nbytes)
    ensures nbytes != 0 && exists g :: FirstGranule(address) <= g <= LastGranule(address, nbytes) && Bumps(n, g)
  {
    var i, j :| 0 <= i < n.size && 0 <= j < nbytes && SameByte(n.address, i, address, j);
    SharedByteIsOneAddress(n.address, n.size, i, address, nbytes, j);
    SharedAddressIsBumped(n, address, nbytes, i, j);
  }

  lemma SharedByteIsOneAddress(a: nat, size: nat, i: nat, b: nat, nbytes: nat, j: nat)
    requires InOneWindow(a, size) && InOneWindow(b, nbytes) && i < size && j < nbytes && SameByte(a, i, b, j)
    ensures Canonicalize(a) + i == Canonicalize(b) + j && Canonicalize(a) + size <= TRACKED_SPAN
  {
    WindowsAreLinear(a, size, i);
    WindowsAreLinear(b, nbytes, j);
    AliasesShareTheirAddress(a + i, b + j);
  }

  /** A digest that may be skipped is of bytes no notified write has touched, through any alias. */
  lemma SkippingIsSound(before: seq<Notification>, during: seq<Notification>, address: nat, nbytes: nat, k: nat)
    requires NoWrap(before + during, address, nbytes)
    requires CanSkipDigest(Generation(before, address, nbytes), Generation(before + during, address, nbytes))
    requires k < |during| && InOneWindow(during[k].address, during[k].size) && InOneWindow(address, nbytes)
    ensures !Hits(during[k], address, nbytes)
  {
    SkipMeansUntouched(before, during, address, nbytes);
    if Hits(during[k], address, nbytes) { HitsAreBumps(during[k], address, nbytes); }
  }

  /** The 64 KiB block of a memory that a byte of it lies in. */
  ghost predicate InBlock(address: nat, ram: Ram, block: nat) {
    exists offset: nat :: Shows(address, ram, offset) && offset / 0x1_0000 == block
  }

  ghost predicate Neighbours(a: nat, b: nat) {
    exists ram, block: nat :: InBlock(a, ram, block) && InBlock(b, ram, block)
  }

  ghost predicate SameBlock(a: nat, i: nat, b: nat, j: nat) {
    Neighbours(a + i, b + j)
  }

  /** Some byte written lies in the block of some byte of the range. */
  ghost predicate ComesNear(n: Notification, address: nat, nbytes: nat) {
    exists i, j | 0 <= i < n.size && 0 <= j < nbytes :: SameBlock(n.address, i, address, j)
  }

  lemma BlockIsGranule(address: nat) returns (ram: Ram, block: nat)
    requires InOneWindow(address, 1)
    ensures InBlock(address, ram, block)
    ensures Canonicalize(address) / GRANULE_SIZE == block + (if ram.Mem1? then 0 else 0x1000)
    ensures block < 0x1000
  {
    var offset;
    ram, offset := CanonicalPlace(address);
    block := offset / 0x1_0000;
  }

  /** A byte in each granule that a range covers. */
  lemma ByteInGranule(address: nat, nbytes: nat, g: nat) returns (j: nat)
    requires nbytes != 0 && FirstGranule(address) <= g <= LastGranule(address, nbytes)
    ensures j < nbytes && (Canonicalize(address) + j) / GRANULE_SIZE == g
  {
    var start := Canonicalize(address);
    j := if start >= g * GRANULE_SIZE then 0 else g * GRANULE_SIZE - start;
  }

  lemma GranuleIsBlock(a: nat, b: nat)
    requires InOneWindow(a, 1) && InOneWindow(b, 1)
    requires Canonicalize(a) / GRANULE_SIZE == Canonicalize(b) / GRANULE_SIZE
    ensures Neighbours(a, b)
  {
    var ram, block := BlockIsGranule(a);
    var other, there := BlockIsGranule(b);
    assert ram == other && block == there;
  }

  lemma SameGranuleIsNear(a: nat, size: nat, i: nat, b: nat, nbytes: nat, j: nat)
    requires InOneWindow(a, size) && InOneWindow(b, nbytes) && i < size && j < nbytes
    requires (Canonicalize(a) + i) / GRANULE_SIZE == (Canonicalize(b) + j) / GRANULE_SIZE
    ensures SameBlock(a, i, b, j)
  {
    WindowsAreLinear(a, size, i);
    WindowsAreLinear(b, nbytes, j);
    GranuleIsBlock(a + i, b + j);
  }

  lemma BumpedWithin(n: Notification, g: nat)
    requires InOneWindow(n.address, n.size) && Bumps(n, g)
    ensures n.size != 0 && FirstGranule(n.address) <= g <= LastGranule(n.address, n.size)
  {
    WindowsAreLinear(n.address, n.size, 0);
  }

  lemma BumpsComeNear(n: Notification, address: nat, nbytes: nat, g: nat)
    requires InOneWindow(n.address, n.size) && InOneWindow(address, nbytes) && nbytes != 0
    requires FirstGranule(address) <= g <= LastGranule(address, nbytes) && Bumps(n, g)
    ensures ComesNear(n, address, nbytes)
  {
    BumpedWithin(n, g);
    var i := ByteInGranule(n.address, n.size, g);
    var j := ByteInGranule(address, nbytes, g);
    SameGranuleIsNear(n.address, n.size, i, address, nbytes, j);
  }

  /** The digest of a range of RAM is kept for as long as no write comes near it. */
  lemma WritesElsewhereKeepTheDigest(before: seq<Notification>, during: seq<Notification>, address: nat, nbytes: nat)
    requires NoWrap(before + during, address, nbytes) && InOneWindow(address, nbytes) && nbytes != 0
    requires forall k | 0 <= k < |during| ::
      InOneWindow(during[k].address, during[k].size) && !ComesNear(during[k], address, nbytes)
    ensures CanSkipDigest(Generation(before, address, nbytes), Generation(before + during, address, nbytes))
  {
    SkipMeansUntouched(before, during, address, nbytes);
    WindowsAreLinear(address, nbytes, 0);
    var first, end := FirstGranule(address), LastGranule(address, nbytes) + 1;
    if AnyBump(during, first, end) {
      var k, g :| 0 <= k < |during| && first <= g < end && Bumps(during[k], g);
      BumpsComeNear(during[k], address, nbytes, g);
    }
  }

  // ------------------------------------------------------------------------------------- wrap-around

  function Repeat(n: Notification, times: nat): seq<Notification> {
    seq(times, _ => n)
  }

  lemma {:induction false} CountRepeat(n: Notification, times: nat, g: nat)
    ensures Count(Repeat(n, times), g) == if Bumps(n, g) then times else 0
  {
    if times == 0 {
    } else {
      CountRepeat(n, times - 1, g);
      assert Repeat(n, times)[..times - 1] == Repeat(n, times - 1);
    }
  }

  lemma SameResidue(a: nat, b: nat)
    ensures (a + b) % WORD == a % WORD <==> b % WORD == 0
  {
    var q, r := b / WORD, b % WORD;
    assert a + b == (a + r) + WORD * q;
    assert (a + b) % WORD == (a + r) % WORD;
    assert (a + r) % WORD == if a % WORD + r < WORD then a % WORD + r else a % WORD + r - WORD;
  }

  /** The bumps of all granules from `first` up to, not including, `end`. */
  function Bumped(during: seq<Notification>, first: nat, end: nat): nat
    requires first <= end
  {
    if first == end then 0 else Bumped(during, first, end - 1) + Count(during, end - 1)
  }

  /** How often the counters of these granules wrap while `during` is notified. */
  function Wraps(before: seq<Notification>, during: seq<Notification>, first: nat, end: nat): nat
    requires first <= end
  {
    if first == end then 0
    else Wraps(before, during, first, end - 1) + (Count(before, end - 1) % WORD + Count(during, end - 1)) / WORD
  }

  lemma CounterWraps(a: nat, b: nat)
    ensures (a + b) % WORD + WORD * ((a % WORD + b) / WORD) == a % WORD + b
  {
    assert a + b == a % WORD + b + WORD * (a / WORD);
    assert (a + b) % WORD == (a % WORD + b) % WORD;
  }

  /** One more counter, at `a` and bumped `b` times, joins an account that balances. */
  lemma OneMoreCounter(later: nat, wraps: nat, fold: nat, bumped: nat, a: nat, b: nat)
    requires later + WORD * wraps == fold + bumped
    ensures later + (a + b) % WORD + WORD * (wraps + (a % WORD + b) / WORD) == fold + a % WORD + (bumped + b)
  {
    CounterWraps(a, b);
  }

  /** What the fold gains by the bumps it loses again by the wraps. */
  lemma {:induction false} FoldAccount(before: seq<Notification>, during: seq<Notification>, first: nat, end: nat)
    requires first <= end
    ensures Fold(before + during, first, end) + WORD * Wraps(before, during, first, end) ==
            Fold(before, first, end) + Bumped(during, first, end)
    decreases end
  {
    if first == end {
    } else {
      FoldAccount(before, during, first, end - 1);
      CountAppend(before, during, end - 1);
      var c, d, w := Count(before, end - 1), Count(during, end - 1), Wraps(before, during, first, end - 1);
      assert Fold(before + during, first, end) == Fold(before + during, first, end - 1) + (c + d) % WORD;
      assert Wraps(before, during, first, end) == w + (c % WORD + d) / WORD;
      OneMoreCounter(Fold(before + during, first, end - 1), w, Fold(before, first, end - 1),
                     Bumped(during, first, end - 1), c, d);
    }
  }

  /** The exact condition for every range and every log: a digest is trusted if and only if the range is
      tracked and its granules were bumped by exactly what the wraps of their counters take off the sum. */
  lemma TrustedExactly(before: seq<Notification>, during: seq<Notification>, address: nat, nbytes: nat)
    ensures CanSkipDigest(Generation(before, address, nbytes), Generation(before + during, address, nbytes)) <==>
            Tracked(address, nbytes) &&
            Bumped(during, FirstGranule(address), LastGranule(address, nbytes) + 1) ==
            WORD * Wraps(before, during, FirstGranule(address), LastGranule(address, nbytes) + 1)
  {
    GenerationIsNotTheSentinel(before + during, address, nbytes);
    if Tracked(address, nbytes) {
      FoldAccount(before, during, FirstGranule(address), LastGranule(address, nbytes) + 1);
    }
  }

  lemma TrustedByResidue(a: nat, b: nat)
    ensures CanSkipDigest(a % WORD, (a + b) % WORD) <==> b % WORD == 0
  {
    SameResidue(a, b);
  }

  /** A tracked range within one granule. */
  predicate Within(address: nat, nbytes: nat, granule: nat) {
    Tracked(address, nbytes) && FirstGranule(address) == granule == LastGranule(address, nbytes)
  }

  lemma OneGranule(log: seq<Notification>, address: nat, nbytes: nat, granule: nat)
    requires Within(address, nbytes, granule)
    ensures Generation(log, address, nbytes) == Count(log, granule) % WORD
  {
    assert Fold(log, granule, granule) == 0;
  }

  /** For a range within one granule: trusted exactly when the writes come to a multiple of 2^32. */
  lemma OneGranuleExactly(before: seq<Notification>, during: seq<Notification>, address: nat, nbytes: nat, granule: nat)
    requires Within(address, nbytes, granule)
    ensures CanSkipDigest(Generation(before, address, nbytes), Generation(before + during, address, nbytes)) <==>
            Count(during, granule) % WORD == 0
  {
    var a, b := Count(before, granule), Count(during, granule);
    CountAppend(before, during, granule);
    OneGranule(before, address, nbytes, granule);
    OneGranule(before + during, address, nbytes, granule);
    TrustedByResidue(a, b);
    assert Generation(before + during, address, nbytes) == (a + b) % WORD;
  }

  /** The bound on the counters is needed: as many writes as a counter has values bring it back to where
      it was, and the digest of overwritten bytes is trusted. */
  lemma WrappedCounterIsTrusted()
    ensures var write := Notification(0, 1);
      var during := Repeat(write, WORD);
      CanSkipDigest(Generation([], 0, 1), Generation([] + during, 0, 1)) && Hits(write, 0, 1)
  {
    var write := Notification(0, 1);
    CountRepeat(write, WORD, 0);
    OneGranuleExactly([], Repeat(write, WORD), 0, 1, 0);
    assert WINDOWS[0].start <= 0;
    AliasesShareTheirAddress(0, 0);
    assert SameByte(0, 0, 0, 0);
  }
}
