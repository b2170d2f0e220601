/** The guard that saves the non-volatile floating-point registers a callee may write, and puts them
    back. Real masks are one contiguous run of registers, which the guard copies as a block. */
module FprGuard {
  import opened Arithmetic

  const FIRST_NONVOLATILE: nat := 14
  const SLOTS: nat := 18
  const REGISTERS: nat := 32
  const ALL_NONVOLATILE: nat := 0xffff_c000
  const WORD: nat := 0x1_0000_0000

  // ---------------------------------------------------------------------------- bits of a number

  /** Bitwise and. */
  function And(x: nat, y: nat): nat {
    if x == 0 || y == 0 then 0 else 2 * And(x / 2, y / 2) + x % 2 * (y % 2)
  }

  predicate Selected(mask: nat, i: nat) {
    if i == 0 then mask % 2 == 1 else Selected(mask / 2, i - 1)
  }

  lemma {:induction false} AndSelected(x: nat, y: nat, i: nat)
    ensures Selected(And(x, y), i) <==> Selected(x, i) && Selected(y, i)
  {
    if x == 0 || y == 0 {
      ZeroSelectsNothing(i);
    } else if i != 0 {
      AndSelected(x / 2, y / 2, i - 1);
    }
  }

  lemma {:induction false} ZeroSelectsNothing(i: nat)
    ensures !Selected(0, i)
  {
    if i == 0 {
    } else {
      ZeroSelectsNothing(i - 1);
    }
  }

  /** `value & -value` at a width of `n` bits. */
  function LowestSetBit(value: nat): nat
    requires value > 0
  {
    if value % 2 == 1 then 1 else 2 * LowestSetBit(value / 2)
  }

  /** `__builtin_ctz`. */
  function LowestSetBitIndex(value: nat): nat
    requires value > 0
  {
    if value % 2 == 1 then 0 else 1 + LowestSetBitIndex(value / 2)
  }

  lemma {:induction false} ComplementSharesNoBit(k: nat, n: nat)
    requires k < Pow2(n)
    ensures And(k, Pow2(n) - 1 - k) == 0
  {
    if n == 0 || k == 0 || Pow2(n) - 1 - k == 0 {
    } else {
      ComplementSharesNoBit(k / 2, n - 1);
      assert (Pow2(n) - 1 - k) / 2 == Pow2(n - 1) - 1 - k / 2;
    }
  }

  /** Negating in two's complement leaves just the lowest set bit in common. */
  lemma {:induction false} NegationIsolatesLowest(m: nat, n: nat)
    requires 0 < m < Pow2(n)
    ensures And(m, Pow2(n) - m) == LowestSetBit(m)
  {
    var other := Pow2(n) - m;
    if m % 2 == 1 {
      assert other / 2 == Pow2(n - 1) - 1 - m / 2 && other % 2 == 1;
      ComplementSharesNoBit(m / 2, n - 1);
    } else {
      assert other / 2 == Pow2(n - 1) - m / 2 && other % 2 == 0;
      NegationIsolatesLowest(m / 2, n - 1);
    }
  }

  predicate IsPow2(x: nat) {
    x == 1 || (x > 0 && x % 2 == 0 && IsPow2(x / 2))
  }

  lemma {:induction false} SelfAnd(x: nat)
    ensures And(x, x) == x
  {
    if x == 0 {
    } else {
      SelfAnd(x / 2);
    }
  }

  /** `x & (x - 1)` is zero just for the powers of two. */
  lemma {:induction false} AndPredecessor(x: nat)
    requires x > 0
    ensures And(x, x - 1) == 0 <==> IsPow2(x)
  {
    if x % 2 == 0 {
      assert (x - 1) / 2 == x / 2 - 1 && (x - 1) % 2 == 1;
      AndPredecessor(x / 2);
    } else if x > 1 {
      assert (x - 1) / 2 == x / 2;
      SelfAnd(x / 2);
    }
  }

  // ---------------------------------------------------------------------------- the run of a mask

  /** Exactly the registers from `first` up to, not including, `end`. */
  ghost predicate IsRun(mask: nat, first: nat, end: nat) {
    first < end && forall i: nat :: Selected(mask, i) <==> first <= i < end
  }

  /** The add-lowest-bit test, in unsigned 32-bit arithmetic. */
  predicate RunTest(mask: nat)
    requires 0 < mask < WORD
  {
    var lowest := And(mask, (WORD - mask) % WORD);
    var aboveRun := (mask + lowest) % WORD;
    And(aboveRun, (aboveRun - 1) % WORD) == 0
  }

  function RunFirst(mask: nat): nat
    requires mask > 0
  {
    LowestSetBitIndex(mask)
  }

  function RunEnd(mask: nat): nat
    requires 0 < mask < WORD
  {
    var aboveRun := (mask + And(mask, (WORD - mask) % WORD)) % WORD;
    if aboveRun == 0 then REGISTERS else LowestSetBitIndex(aboveRun)
  }

  lemma {:induction false} PowerSelects(x: nat, i: nat)
    requires IsPow2(x)
    ensures Selected(x, i) <==> i == LowestSetBitIndex(x)
    ensures Selected(x - 1, i) <==> i < LowestSetBitIndex(x)
  {
    if x == 1 {
      if i != 0 { ZeroSelectsNothing(i - 1); }
      ZeroSelectsNothing(i);
    } else {
      assert (x - 1) / 2 == x / 2 - 1 && (x - 1) % 2 == 1;
      if i != 0 { PowerSelects(x / 2, i - 1); }
    }
  }

  /** Only a run of ones becomes a power of two when its lowest bit is added. */
  lemma {:induction false} RunBecomesPower(m: nat, i: nat)
    requires m > 0 && IsPow2(m + LowestSetBit(m))
    ensures Selected(m, i) <==> LowestSetBitIndex(m) <= i < LowestSetBitIndex(m + LowestSetBit(m))
    decreases m
  {
    var x := m + LowestSetBit(m);
    if m % 2 == 1 {
      PowerSelects(x, i);
    } else {
      assert x / 2 == m / 2 + LowestSetBit(m / 2) && x % 2 == 0;
      if i != 0 { RunBecomesPower(m / 2, i - 1); }
    }
  }

  lemma {:induction false} SelectionDetermines(x: nat, y: nat)
    requires forall i: nat :: Selected(x, i) <==> Selected(y, i)
    ensures x == y
    decreases x + y
  {
    if x + y == 0 {
    } else {
      assert Selected(x, 0) <==> Selected(y, 0);
      forall i: nat ensures Selected(x / 2, i) <==> Selected(y / 2, i) {
        assert Selected(x, i + 1) <==> Selected(y, i + 1);
      }
      SelectionDetermines(x / 2, y / 2);
    }
  }

  lemma {:induction false} PowersArePowers(n: nat)
    ensures IsPow2(Pow2(n)) && LowestSetBitIndex(Pow2(n)) == n
  {
    if n == 0 {
    } else {
      PowersArePowers(n - 1);
    }
  }

  lemma {:induction false} RunIsPower(m: nat, first: nat, end: nat)
    requires m > 0 && IsRun(m, first, end)
    ensures IsPow2(m + LowestSetBit(m))
    decreases first
  {
    assert Selected(m, 0) <==> first == 0;
    if first == 0 {
      PowersArePowers(end);
      forall i: nat ensures Selected(m, i) <==> Selected(Pow2(end) - 1, i) { PowerSelects(Pow2(end), i); }
      SelectionDetermines(m, Pow2(end) - 1);
    } else {
      forall i: nat ensures Selected(m / 2, i) <==> first - 1 <= i < end - 1 {
        assert Selected(m, i + 1) <==> first <= i + 1 < end;
      }
      RunIsPower(m / 2, first - 1, end - 1);
    }
  }

  lemma {:induction false} AboveFits(m: nat, n: nat)
    requires 0 < m < Pow2(n)
    ensures m + LowestSetBit(m) <= Pow2(n)
  {
    if m % 2 != 0 {
    } else {
      AboveFits(m / 2, n - 1);
    }
  }

  lemma {:induction false} LowestIsSelected(m: nat)
    requires m > 0
    ensures Selected(m, LowestSetBitIndex(m))
  {
    if m % 2 != 0 {
    } else {
      LowestIsSelected(m / 2);
    }
  }

  lemma {:induction false} SelectedIsBelow(m: nat, i: nat, n: nat)
    requires m < Pow2(n) && Selected(m, i)
    ensures i < n
  {
    if n == 0 {
      ZeroSelectsNothing(i);
    } else if i != 0 {
      SelectedIsBelow(m / 2, i - 1, n - 1);
    }
  }

  lemma WordIsPower()
    ensures Pow2(32) == WORD
  {
    assert Pow2(8) == 256 && Pow2(16) == 0x1_0000 && Pow2(24) == 0x100_0000;
  }

  lemma NegationInAWord(mask: nat)
    requires 0 < mask < WORD
    ensures And(mask, (WORD - mask) % WORD) == LowestSetBit(mask)
    ensures mask + LowestSetBit(mask) <= WORD
  {
    WordIsPower();
    SmallRemainder(WORD - mask);
    NegationIsolatesLowest(mask, 32);
    AboveFits(mask, 32);
  }

  lemma RunTestIsPower(mask: nat)
    requires 0 < mask < WORD
    ensures RunTest(mask) <==> IsPow2(mask + LowestSetBit(mask))
    ensures RunEnd(mask) == LowestSetBitIndex(mask + LowestSetBit(mask))
  {
    NegationInAWord(mask);
    PredecessorInAWord(mask + LowestSetBit(mask));
  }

  lemma PredecessorInAWord(above: nat)
    requires 0 < above <= WORD
    ensures And(above % WORD, (above % WORD - 1) % WORD) == 0 <==> IsPow2(above)
    ensures LowestSetBitIndex(above) == if above % WORD == 0 then REGISTERS else LowestSetBitIndex(above % WORD)
  {
    if above < WORD {
      SmallRemainder(above);
      SmallRemainder(above - 1);
      AndPredecessor(above);
    } else {
      assert IsPow2(above) && LowestSetBitIndex(above) == REGISTERS by {
        assert above == Pow2(32) by { WordIsPower(); }
        PowersArePowers(32);
      }
    }
  }

  lemma SmallRemainder(x: int)
    requires 0 <= x < WORD
    ensures x % WORD == x
  {
  }

  /** The test holds for exactly the masks that are one contiguous run, and then the computed bounds are
      the run's. */
  lemma RunTestFindsRuns(mask: nat)
    requires 0 < mask < WORD
    ensures RunTest(mask) ==> IsRun(mask, RunFirst(mask), RunEnd(mask)) && RunEnd(mask) <= REGISTERS
    ensures (exists first, end :: IsRun(mask, first, end)) ==> RunTest(mask)
  {
    RunTestIsPower(mask);
    if RunTest(mask) {
      forall i: nat ensures Selected(mask, i) <==> RunFirst(mask) <= i < RunEnd(mask) {
        RunBecomesPower(mask, i);
      }
      LowestIsSelected(mask);
      WordIsPower();
      SelectedIsBelow(mask, RunEnd(mask) - 1, 32);
    }
    if first, end :| IsRun(mask, first, end) {
      RunIsPower(mask, first, end);
    }
  }

  // --------------------------------------------------------------------------------- the guard itself

  lemma AllNonvolatileIsRun()
    ensures IsRun(ALL_NONVOLATILE, FIRST_NONVOLATILE, REGISTERS)
  {
    forall i: nat ensures Selected(ALL_NONVOLATILE, i) <==> 14 <= i < 32 {
      TopOnes(14, 18, i);
      assert Pow2(14) == 0x4000 && Pow2(18) == 0x4_0000;
    }
  }

  /** `n` ones shifted left by `k`. */
  lemma {:induction false} TopOnes(k: nat, n: nat, i: nat)
    ensures Pow2(n) >= 1
    ensures Selected(Pow2(k) * (Pow2(n) - 1), i) <==> k <= i < k + n
  {
    if k == 0 {
      PowersArePowers(n);
      PowerSelects(Pow2(n), i);
    } else {
      Doubled(Pow2(k - 1), Pow2(n) - 1);
      if i != 0 { TopOnes(k - 1, n, i - 1); }
    }
  }

  lemma Doubled(a: nat, b: nat)
    ensures 2 * a * b / 2 == a * b && 2 * a * b % 2 == 0
  {
    assert 2 * a * b == 2 * (a * b);
  }

  /** The registers the guard looks after. */
  predicate Guards(mask: nat, r: nat) {
    FIRST_NONVOLATILE <= r < REGISTERS && Selected(mask, r)
  }

  lemma MaskedGuards(mask: nat, r: nat)
    requires r < REGISTERS
    ensures Selected(And(mask, ALL_NONVOLATILE), r) <==> Guards(mask, r)
  {
    AllNonvolatileIsRun();
    AndSelected(mask, ALL_NONVOLATILE, r);
  }

  lemma {:induction false} AndIsSmaller(x: nat, y: nat)
    ensures And(x, y) <= y
  {
    if x == 0 || y == 0 {
    } else {
      AndIsSmaller(x / 2, y / 2);
    }
  }

  class CpuContext<T(0)> {
    const fpr: array<T>

    constructor (initial: T)
      ensures fpr.Length == REGISTERS && fresh(fpr)
    {
      fpr := new T[REGISTERS](_ => initial);
    }
  }

  class PpcNonvolatileFprGuard<T(0)> {
    const cpu: CpuContext?<T>
    const mask: nat
    var firstSlot: nat
    var slotCount: nat
    const saved: array<T>

    ghost predicate Shaped()
      reads this
    {
      saved.Length == SLOTS && mask <= ALL_NONVOLATILE &&
      (cpu != null ==> cpu.fpr.Length == REGISTERS && cpu.fpr != saved) &&
      (slotCount != 0 ==>
         IsRun(mask, FIRST_NONVOLATILE + firstSlot, FIRST_NONVOLATILE + firstSlot + slotCount) &&
         firstSlot + slotCount <= SLOTS)
    }

    /** The guarded registers' values at the time of construction. */
    ghost predicate Saves(registers: seq<T>)
      reads this, saved
    {
      Shaped() && |registers| == REGISTERS &&
      (cpu != null ==> forall r | 14 <= r < 32 && Selected(mask, r) :: saved[r - 14] == registers[r])
    }

    constructor (cpu: CpuContext?<T>, mask: nat)
      requires cpu != null ==> cpu.fpr.Length == REGISTERS
      ensures Shaped() && fresh(saved) && this.cpu == cpu && this.mask == And(mask, ALL_NONVOLATILE)
      ensures cpu != null ==> Saves(cpu.fpr[..])
    {
      this.cpu, this.mask := cpu, And(mask, ALL_NONVOLATILE);
      firstSlot, slotCount := 0, 0;
      saved := new T[SLOTS];
      new;
      AndIsSmaller(mask, ALL_NONVOLATILE);
      if cpu == null || this.mask == 0 {
        forall r: nat ensures !Selected(0, r) { ZeroSelectsNothing(r); }
        return;
      }
      RunTestFindsRuns(this.mask);
      if RunTest(this.mask) {
        var first, end := RunFirst(this.mask), RunEnd(this.mask);
        assert Selected(this.mask, first);
        MaskedGuards(mask, first);
        firstSlot, slotCount := first - FIRST_NONVOLATILE, end - first;
        SaveBlock();
      } else {
        SaveSelected();
      }
    }

    method SaveBlock()
      requires Shaped() && cpu != null && firstSlot + slotCount <= SLOTS
      modifies saved
      ensures forall r | firstSlot <= r < firstSlot + slotCount :: saved[r] == cpu.fpr[FIRST_NONVOLATILE + r]
    {
      for i := 0 to slotCount
        invariant forall r | firstSlot <= r < firstSlot + i :: saved[r] == cpu.fpr[FIRST_NONVOLATILE + r]
      {
        saved[firstSlot + i] := cpu.fpr[FIRST_NONVOLATILE + firstSlot + i];
      }
    }

    method SaveSelected()
      requires Shaped() && cpu != null
      modifies saved
      ensures Saves(cpu.fpr[..])
    {
      for i := 0 to SLOTS
        invariant forall r | 14 <= r < 14 + i && Selected(mask, r) :: saved[r - 14] == cpu.fpr[r]
      {
        if Selected(mask, 14 + i) {
          saved[i] := cpu.fpr[14 + i];
        }
      }
    }

    /** The destructor: the guarded registers are as they were, the others as the callee left them. */
    method Release(ghost registers: seq<T>)
      requires Saves(registers)
      modifies if cpu == null then {} else {cpu.fpr}
      ensures cpu != null ==> forall r | 0 <= r < REGISTERS ::
        cpu.fpr[r] == if 14 <= r && Selected(mask, r) then registers[r] else old(cpu.fpr[r])
    {
      if cpu == null || mask == 0 {
        forall r: nat ensures !Selected(0, r) { ZeroSelectsNothing(r); }
        return;
      }
      if slotCount != 0 {
        var first := FIRST_NONVOLATILE + firstSlot;
        for i := 0 to slotCount
          invariant forall r | 0 <= r < REGISTERS ::
            cpu.fpr[r] == if first <= r < first + i then registers[r] else old(cpu.fpr[r])
          invariant saved[..] == old(saved[..])
        {
          cpu.fpr[first + i] := saved[firstSlot + i];
        }
        return;
      }
      for i := 0 to SLOTS
        invariant forall r | 0 <= r < REGISTERS ::
          cpu.fpr[r] == if 14 <= r < 14 + i && Selected(mask, r) then registers[r] else old(cpu.fpr[r])
        invariant saved[..] == old(saved[..])
      {
        if Selected(mask, 14 + i) {
          cpu.fpr[14 + i] := saved[i];
        }
      }
    }
  }

  // ------------------------------------------------------------------------------------ nested calls

  /** What a callee does to the registers: leave them in some state, call under a guard, or do two
      things in turn. */
  datatype Callee<T> =
    | Leaves(registers: seq<T>)
    | Guarded(mask: nat, inner: Callee<T>)
    | Sequence(first: Callee<T>, second: Callee<T>)

  ghost predicate WellSized<T>(c: Callee<T>) {
    match c
    case Leaves(registers) => |registers| == REGISTERS
    case Guarded(_, inner) => WellSized(inner)
    case Sequence(first, second) => WellSized(first) && WellSized(second)
  }

  /** The registers afterwards, read off the masks. */
  ghost function After<T>(c: Callee<T>, before: seq<T>): (after: seq<T>)
    requires WellSized(c) && |before| == REGISTERS
    ensures |after| == REGISTERS
  {
    match c
    case Leaves(registers) => registers
    case Guarded(mask, inner) =>
      var left := After(inner, before);
      seq(REGISTERS, r requires 0 <= r < REGISTERS => if Guards(mask, r) then before[r] else left[r])
    case Sequence(first, second) => After(second, After(first, before))
  }

  /** Around any callee, nested guards included, the masked registers are restored and the others keep
      the callee's values - whichever way a guard copies. */
  method Call<T(0)>(cpu: CpuContext<T>, c: Callee<T>)
    requires WellSized(c) && cpu.fpr.Length == REGISTERS
    modifies cpu.fpr
    ensures cpu.fpr[..] == After(c, old(cpu.fpr[..]))
    decreases c
  {
    match c
    case Leaves(registers) =>
      for r := 0 to REGISTERS
        invariant cpu.fpr[..r] == registers[..r]
      {
        cpu.fpr[r] := registers[r];
      }
    case Guarded(mask, inner) =>
      var guard := new PpcNonvolatileFprGuard(cpu, mask);
      Call(cpu, inner);
      ghost var left := cpu.fpr[..];
      guard.Release(old(cpu.fpr[..]));
      forall r | 0 <= r < REGISTERS
        ensures cpu.fpr[r] == if Guards(mask, r) then old(cpu.fpr[..])[r] else left[r]
      {
        MaskedGuards(mask, r);
      }
    case Sequence(first, second) =>
      Call(cpu, first);
      Call(cpu, second);
  }
}
