/** The flat view of guest memory: resolving a range to one host address, and which stores the MMIO
    window takes out of it. */
module FlatMemory {
  import opened Basics

  const GUEST_SPAN: nat := 0x1_0000_0000
  const PAGE_SIZE: nat := 0x10_0000
  const MMIO_START: nat := 0xCC00_0000
  const MMIO_END: nat := 0xCE00_0000

  predicate IsMmioAddress(address: nat) {
    MMIO_START <= address < MMIO_END
  }

  /** `(address & 0xFE000000) == 0xCC000000`: the low 25 bits are cleared. */
  predicate FlatWriteNeedsPolicy(address: nat) {
    address / 0x200_0000 * 0x200_0000 == MMIO_START
  }

  lemma MaskDecidesWindow(address: nat)
    requires address < GUEST_SPAN
    ensures FlatWriteNeedsPolicy(address) <==> IsMmioAddress(address)
  {
  }

  /** The range lies in guest memory without wrapping around its end. */
  ghost predicate InGuest(start: nat, length: nat) {
    start + length <= GUEST_SPAN
  }

  ghost predicate TouchesMmio(start: nat, length: nat) {
    exists i | 0 <= i < length :: IsMmioAddress(ByteAddress(start, i))
  }

  function ByteAddress(start: nat, i: nat): nat {
    start + i
  }

  /** Checking both ends is a complete proof: no range of at most a page straddles the window. */
  lemma EndpointsDecide(start: nat, length: nat)
    requires 1 <= length <= PAGE_SIZE && InGuest(start, length)
    ensures TouchesMmio(start, length) <==>
            FlatWriteNeedsPolicy(start) || FlatWriteNeedsPolicy(start + (length - 1))
  {
    MaskDecidesWindow(start);
    MaskDecidesWindow(start + (length - 1));
    assert ByteAddress(start, 0) == start && ByteAddress(start, length - 1) == start + (length - 1);
  }

  /** Offset of the flat host range, if the whole range may be accessed there directly. */
  function ResolveRangeHost(base: nat, minOffset: int, length: nat, needsWrite: bool,
                            requiresCheckedAccess: bool): Option<nat>
  {
    var guestStart := (base + minOffset) % GUEST_SPAN;
    if length == 0 || length > PAGE_SIZE || guestStart > GUEST_SPAN - 1 - (length - 1) then None
    else if requiresCheckedAccess then None
    else if needsWrite && (FlatWriteNeedsPolicy(guestStart) || FlatWriteNeedsPolicy(guestStart + (length - 1)))
    then None
    else Some(guestStart)
  }

  /** A range resolves exactly when it is one page at most, does not wrap, direct access is allowed, and
      it keeps all its bytes out of the MMIO window if it is written. */
  lemma RangeResolvesExactly(base: nat, minOffset: int, length: nat, needsWrite: bool, checkedAccess: bool)
    ensures var start := (base + minOffset) % GUEST_SPAN;
      ResolveRangeHost(base, minOffset, length, needsWrite, checkedAccess) ==
      if 1 <= length <= PAGE_SIZE && InGuest(start, length) && !checkedAccess &&
         !(needsWrite && TouchesMmio(start, length))
      then Some(start) else None
  {
    var start := (base + minOffset) % GUEST_SPAN;
    if 1 <= length <= PAGE_SIZE && InGuest(start, length) {
      EndpointsDecide(start, length);
    }
  }

  /** `FlatWrite16`, `FlatWrite32` and `FlatWriteFloat64` look at the first byte only: a store that is not
      diverted still reaches into the window exactly when it starts less than its size below it. */
  lemma UndivertedStoreTouchesMmio(address: nat, size: nat)
    requires InGuest(address, size) && 1 <= size <= 8 && !FlatWriteNeedsPolicy(address)
    ensures TouchesMmio(address, size) <==> MMIO_START - size < address < MMIO_START
  {
    MaskDecidesWindow(address);
    if MMIO_START - size < address < MMIO_START {
      assert IsMmioAddress(ByteAddress(address, MMIO_START - address));
    }
  }
}
