/** CRC-16/CCITT with a zero start value, and the empty Mii database it closes. Machine words are their bits,
    most significant first. */
module Crc {

  type Byte = b: seq<bool> | |b| == 8 witness Zeros(8)
  type Word = w: seq<bool> | |w| == 16 witness Zeros(16)

  function Zeros(n: nat): (r: seq<bool>)
    ensures |r| == n && forall i | 0 <= i < n :: !r[i]
  {
    seq(n, _ => false)
  }

  function Xor(s: seq<bool>, t: seq<bool>): (r: seq<bool>)
    requires |s| == |t|
    ensures |r| == |s| && forall i | 0 <= i < |s| :: r[i] == (s[i] != t[i])
  {
    seq(|s|, i requires 0 <= i < |s| => s[i] != t[i])
  }

  /** 0x1021. */
  const POLYNOMIAL: Word := [
    false, false, false, true, false, false, false, false,
    false, false, true, false, false, false, false, true]

  /** One shift of the register. */
  function Shift(crc: Word): Word {
    if crc[0] then Xor(crc[1..] + [false], POLYNOMIAL) else crc[1..] + [false]
  }

  /** One bit of the message enters at the top of the register. */
  function Enter(crc: Word, bit: bool): Word {
    Shift(crc[0 := crc[0] != bit])
  }

  /** The register after `bits` have entered: polynomial division, one bit at a time. */
  function Run(crc: Word, bits: seq<bool>): Word
    decreases |bits|
  {
    if bits == [] then crc else Run(Enter(crc, bits[0]), bits[1..])
  }

  function Bits(data: seq<Byte>): (r: seq<bool>)
    ensures |r| == 8 * |data|
  {
    if data == [] then [] else data[0] + Bits(data[1..])
  }

  function Crc(data: seq<Byte>): Word {
    Run(Zeros(16), Bits(data))
  }

  lemma ShiftAt(crc: Word, i: nat)
    requires i < 16
    ensures Shift(crc)[i] == ((i < 15 && crc[i + 1]) != (crc[0] && POLYNOMIAL[i]))
  {
  }

  // --------------------------------------------------------------------------------------- the loops

  lemma {:induction false} RunAppend(crc: Word, a: seq<bool>, b: seq<bool>)
    ensures Run(crc, a + b) == Run(Run(crc, a), b)
    decreases |a|
  {
    if a == [] {
      assert a + b == b;
    } else {
      assert (a + b)[1..] == a[1..] + b;
      RunAppend(Enter(crc, a[0]), a[1..], b);
    }
  }

  lemma RunLast(crc: Word, bits: seq<bool>, k: nat)
    requires k < |bits|
    ensures Run(crc, bits[..k + 1]) == Enter(Run(crc, bits[..k]), bits[k])
  {
    assert bits[..k + 1] == bits[..k] + [bits[k]];
    RunAppend(crc, bits[..k], [bits[k]]);
    assert [bits[k]][1..] == [];
  }

  /** What is left of a byte mixed into the register after `k` of its bits have been shifted out. */
  function Left(byte: Byte, k: nat): Word
    requires k <= 8
  {
    byte[k..] + Zeros(8 + k)
  }

  /** Mixing a whole byte in before shifting is the same as letting its bits enter one by one. */
  lemma MixedEarly(state: Word, byte: Byte, k: nat)
    requires k < 8
    ensures Shift(Xor(state, Left(byte, k))) == Xor(Enter(state, byte[k]), Left(byte, k + 1))
  {
    var mixed, entered := Xor(state, Left(byte, k)), state[0 := state[0] != byte[k]];
    forall i | 0 <= i < 16 ensures Shift(mixed)[i] == Xor(Shift(entered), Left(byte, k + 1))[i] {
      ShiftAt(mixed, i);
      ShiftAt(entered, i);
    }
  }

  lemma NothingLeft(state: Word, byte: Byte)
    ensures Xor(state, Left(byte, 8)) == state
  {
  }

  method Crc16Ccitt(data: seq<Byte>) returns (crc: Word)
    ensures crc == Crc(data)
  {
    crc := Zeros(16);
    for i := 0 to |data|
      invariant Crc(data) == Run(crc, Bits(data[i..]))
    {
      ghost var before, bits := crc, data[i];
      crc := Xor(crc, data[i] + Zeros(8));
      for bit := 0 to 8
        invariant crc == Xor(Run(before, bits[..bit]), Left(bits, bit))
      {
        MixedEarly(Run(before, bits[..bit]), bits, bit);
        RunLast(before, bits, bit);
        crc := if crc[0] then Xor(crc[1..] + [false], POLYNOMIAL) else crc[1..] + [false];
      }
      NothingLeft(Run(before, bits), bits);
      assert bits[..8] == bits;
      assert data[i..][1..] == data[i + 1..];
      RunAppend(before, bits, Bits(data[i + 1..]));
    }
  }

  // -------------------------------------------------------------------------------------- linearity

  lemma EnterIsLinear(a: Word, b: Word, x: bool, y: bool)
    ensures Enter(Xor(a, b), x != y) == Xor(Enter(a, x), Enter(b, y))
  {
    var mixed, a1, b1 := Xor(a, b)[0 := Xor(a, b)[0] != (x != y)], a[0 := a[0] != x], b[0 := b[0] != y];
    forall i | 0 <= i < 16 ensures Shift(mixed)[i] == Xor(Shift(a1), Shift(b1))[i] {
      ShiftAt(mixed, i);
      ShiftAt(a1, i);
      ShiftAt(b1, i);
    }
  }

  lemma {:induction false} RunIsLinear(a: Word, b: Word, s: seq<bool>, t: seq<bool>)
    requires |s| == |t|
    ensures Run(Xor(a, b), Xor(s, t)) == Xor(Run(a, s), Run(b, t))
    decreases |s|
  {
    if s == [] {
    } else {
      assert Xor(s, t)[1..] == Xor(s[1..], t[1..]);
      EnterIsLinear(a, b, s[0], t[0]);
      RunIsLinear(Enter(a, s[0]), Enter(b, t[0]), s[1..], t[1..]);
    }
  }

  function XorBytes(s: seq<Byte>, t: seq<Byte>): (r: seq<Byte>)
    requires |s| == |t|
    ensures |r| == |s|
  {
    if s == [] then [] else [Xor(s[0], t[0])] + XorBytes(s[1..], t[1..])
  }

  lemma {:induction false} BitsApart(s: seq<Byte>, t: seq<Byte>)
    requires |s| == |t|
    ensures Bits(XorBytes(s, t)) == Xor(Bits(s), Bits(t))
  {
    if s == [] {
    } else {
      BitsApart(s[1..], t[1..]);
    }
  }

  /** The CRC of the exclusive or of two strings of one length is the exclusive or of their CRCs. */
  lemma CrcIsLinear(s: seq<Byte>, t: seq<Byte>)
    requires |s| == |t|
    ensures Crc(XorBytes(s, t)) == Xor(Crc(s), Crc(t))
  {
    BitsApart(s, t);
    RunIsLinear(Zeros(16), Zeros(16), Bits(s), Bits(t));
    assert Xor(Zeros(16), Zeros(16)) == Zeros(16);
  }

  // ------------------------------------------------------------------------------- bursts of errors

  predicate NoneSet(bits: seq<bool>) {
    forall i | 0 <= i < |bits| :: !bits[i]
  }

  /** A register that ends at zero was clear below the bits still to come, and its top bit is the next of them. */
  lemma {:induction false} EndsAtZero(crc: Word, bits: seq<bool>)
    requires |bits| <= 16 && NoneSet(Run(crc, bits))
    ensures NoneSet(crc[|bits|..])
    ensures bits != [] ==> crc[0] == bits[0]
    decreases |bits|
  {
    if bits == [] {
    } else {
      var mixed := crc[0 := crc[0] != bits[0]];
      var next := Shift(mixed);
      EndsAtZero(next, bits[1..]);
      ShiftAt(mixed, 15);
      assert !next[|bits| - 1..][16 - |bits|];
      assert !mixed[0];
      forall i | |bits| <= i < 16 ensures !crc[i] {
        ShiftAt(mixed, i - 1);
        assert !next[|bits| - 1..][i - |bits|];
      }
    }
  }

  lemma EnterZero()
    ensures Enter(Zeros(16), false) == Zeros(16)
  {
  }

  /** No sixteen bits but zeros leave the register at zero. */
  lemma {:induction false} ShortRunShows(bits: seq<bool>)
    requires |bits| <= 16
    ensures NoneSet(Run(Zeros(16), bits)) ==> NoneSet(bits)
  {
    if bits == [] || !NoneSet(Run(Zeros(16), bits)) {
    } else {
      EndsAtZero(Zeros(16), bits);
      EnterZero();
      ShortRunShows(bits[1..]);
      assert forall i | 0 < i < |bits| :: bits[i] == bits[1..][i - 1];
    }
  }

  /** The polynomial ends in one, so nothing but zero shifts to zero. */
  lemma ShiftIsZero(crc: Word)
    ensures NoneSet(Shift(crc)) <==> NoneSet(crc)
  {
    ShiftAt(crc, 15);
    if !crc[0] {
      assert forall i | 1 <= i < 16 :: crc[i] == Shift(crc)[i - 1];
    } else {
      assert Shift(crc)[15];
    }
  }

  lemma {:induction false} ZerosKeepNonzero(crc: Word, bits: seq<bool>)
    requires NoneSet(bits)
    ensures NoneSet(Run(crc, bits)) <==> NoneSet(crc)
    decreases |bits|
  {
    if bits == [] {
    } else {
      assert crc[0 := crc[0] != false] == crc;
      ShiftIsZero(crc);
      ZerosKeepNonzero(Shift(crc), bits[1..]);
    }
  }

  lemma OnlyZeros(s: seq<bool>)
    requires NoneSet(s)
    ensures s == Zeros(|s|)
  {
  }

  /** All set bits lie within sixteen places from `start`, and there are some. */
  predicate IsBurst(bits: seq<bool>, start: nat) {
    !NoneSet(bits) && forall i | 0 <= i < |bits| :: bits[i] ==> start <= i < start + 16
  }

  lemma WindowShows(before: seq<bool>, window: seq<bool>, after: seq<bool>)
    requires NoneSet(before) && NoneSet(after) && |window| <= 16 && !NoneSet(window)
    ensures !NoneSet(Run(Zeros(16), before + (window + after)))
  {
    RunAppend(Zeros(16), before, window + after);
    ZerosKeepNonzero(Zeros(16), before);
    OnlyZeros(Run(Zeros(16), before));
    RunAppend(Zeros(16), window, after);
    ZerosKeepNonzero(Run(Zeros(16), window), after);
    ShortRunShows(window);
  }

  lemma BurstSplit(bits: seq<bool>, start: nat) returns (before: seq<bool>, window: seq<bool>, after: seq<bool>)
    requires IsBurst(bits, start)
    ensures bits == before + (window + after) && |window| <= 16
    ensures NoneSet(before) && NoneSet(after) && !NoneSet(window)
  {
    var i :| 0 <= i < |bits| && bits[i];
    var end := if start + 16 < |bits| then start + 16 else |bits|;
    before, window, after := bits[..start], bits[start..end], bits[end..];
    assert forall k | 0 <= k < |after| :: after[k] == bits[end + k];
    assert window[i - start];
  }

  lemma BurstShows(bits: seq<bool>, start: nat)
    requires IsBurst(bits, start)
    ensures !NoneSet(Run(Zeros(16), bits))
  {
    var before, window, after := BurstSplit(bits, start);
    WindowShows(before, window, after);
  }

  /** Any error burst of at most sixteen bits changes the CRC. */
  lemma BurstIsDetected(data: seq<Byte>, error: seq<Byte>, start: nat)
    requires |error| == |data| && exists i :: 0 <= i < |Bits(error)| && Bits(error)[i]
    requires forall i | 0 <= i < |Bits(error)| && Bits(error)[i] :: start <= i < start + 16
    ensures Crc(XorBytes(data, error)) != Crc(data)
  {
    CrcIsLinear(data, error);
    BurstShows(Bits(error), start);
    var i :| 0 <= i < 16 && Crc(error)[i];
    assert Xor(Crc(data), Crc(error))[i] != Crc(data)[i];
  }

  // ---------------------------------------------------------------------------------- the CRC appended

  lemma {:induction false} OwnBitsClear(crc: Word, k: nat)
    requires k <= 16
    ensures Run(crc, crc[..k]) == crc[k..] + Zeros(k)
  {
    if k == 0 {
    } else {
      OwnBitsClear(crc, k - 1);
      RunLast(crc, crc, k - 1);
      var left := crc[k - 1..] + Zeros(k - 1);
      assert Shift(left[0 := false]) == crc[k..] + Zeros(k);
    }
  }

  /** Feeding a register anything but its own bits does not clear it. */
  lemma OwnBitsOnly(crc: Word, bits: Word)
    ensures NoneSet(Run(crc, bits)) <==> bits == crc
  {
    OwnBitsClear(crc, 16);
    assert crc[..16] == crc;
    if NoneSet(Run(crc, bits)) {
      RunIsLinear(crc, crc, bits, crc);
      OnlyZeros(Xor(crc, crc));
      ShortRunShows(Xor(bits, crc));
      assert forall i | 0 <= i < 16 :: !Xor(bits, crc)[i];
    }
  }

  lemma {:induction false} BitsAppend(s: seq<Byte>, t: seq<Byte>)
    ensures Bits(s + t) == Bits(s) + Bits(t)
  {
    if s == [] {
      assert s + t == t;
    } else {
      assert (s + t)[1..] == s[1..] + t;
      BitsAppend(s[1..], t);
    }
  }

  /** A string followed by two bytes has CRC zero exactly when they are its CRC, high byte first. */
  lemma AppendedCrcIsZero(data: seq<Byte>, high: Byte, low: Byte)
    ensures Crc(data + [high, low]) == Zeros(16) <==> high + low == Crc(data)
  {
    BitsAppend(data, [high, low]);
    assert [high, low][1..] == [low] && [low][1..] == [];
    assert Bits([high, low]) == high + (low + []);
    assert Bits([high, low]) == high + low;
    RunAppend(Zeros(16), Bits(data), high + low);
    OwnBitsOnly(Crc(data), high + low);
    if NoneSet(Run(Crc(data), high + low)) { OnlyZeros(Run(Crc(data), high + low)); }
  }

  /** Sixteen is the most that can be said of all bursts: the polynomial with its leading one, seventeen bits
      from end to end, changes the CRC of no message. */
  lemma PolynomialGoesUnseen(bits: seq<bool>, start: nat, after: nat)
    requires |bits| == start + 17 + after
    ensures Run(Zeros(16), Xor(bits, Zeros(start) + ([true] + POLYNOMIAL + Zeros(after)))) == Run(Zeros(16), bits)
  {
    var error := [true] + POLYNOMIAL + Zeros(after);
    RunIsLinear(Zeros(16), Zeros(16), bits, Zeros(start) + error);
    RunAppend(Zeros(16), Zeros(start), error);
    ZerosStayZero(Zeros(start));
    PolynomialClears(after);
    assert Xor(Zeros(16), Zeros(16)) == Zeros(16);
    assert Xor(Run(Zeros(16), bits), Zeros(16)) == Run(Zeros(16), bits);
  }

  lemma PolynomialClears(after: nat)
    ensures Run(Zeros(16), [true] + POLYNOMIAL + Zeros(after)) == Zeros(16)
  {
    var polynomial: Word := POLYNOMIAL;
    EnterOne();
    assert ([true] + polynomial)[1..] == polynomial;
    assert Run(Zeros(16), [true] + polynomial) == Run(Enter(Zeros(16), true), polynomial);
    RunAppend(Zeros(16), [true] + polynomial, Zeros(after));
    OwnBitsClear(polynomial, 16);
    assert polynomial[..16] == polynomial && polynomial[16..] + Zeros(16) == Zeros(16);
    ZerosStayZero(Zeros(after));
  }

  lemma EnterOne()
    ensures Enter(Zeros(16), true) == POLYNOMIAL
  {
    var mixed: Word := Zeros(16)[0 := true];
    forall i | 0 <= i < 16 ensures Shift(mixed)[i] == POLYNOMIAL[i] {
      ShiftAt(mixed, i);
    }
  }

  lemma ZerosStayZero(bits: seq<bool>)
    requires NoneSet(bits)
    ensures Run(Zeros(16), bits) == Zeros(16)
  {
    ZerosKeepNonzero(Zeros(16), bits);
    OnlyZeros(Run(Zeros(16), bits));
  }

  // ------------------------------------------------------------------------------ the empty Mii database

  const MII_DATABASE_SIZE: nat := 0x1F1E0
  const PARADE_OFFSET: nat := 0x1D00
  const CRC_OFFSET: nat := 0x1F1DE

  function ByteOf(n: nat): Byte {
    [n / 128 % 2 == 1, n / 64 % 2 == 1, n / 32 % 2 == 1, n / 16 % 2 == 1,
     n / 8 % 2 == 1, n / 4 % 2 == 1, n / 2 % 2 == 1, n % 2 == 1]
  }

  function Weight(bit: bool, value: nat): nat {
    if bit then value else 0
  }

  lemma ByteOfIsBinary(n: nat)
    requires n < 256
    ensures var b := ByteOf(n);
      n == Weight(b[0], 128) + Weight(b[1], 64) + Weight(b[2], 32) + Weight(b[3], 16) +
           Weight(b[4], 8) + Weight(b[5], 4) + Weight(b[6], 2) + Weight(b[7], 1)
  {
    TopBits(n);
    LowBits(n % 16);
    SameLowBits(n);
  }

  lemma TopBits(n: nat)
    requires n < 256
    ensures n == Weight(n / 128 % 2 == 1, 128) + Weight(n / 64 % 2 == 1, 64) + Weight(n / 32 % 2 == 1, 32) +
                 Weight(n / 16 % 2 == 1, 16) + n % 16
  {
    LowBits(n / 16);
    assert n / 128 == n / 16 / 8 && n / 64 == n / 16 / 4 && n / 32 == n / 16 / 2;
  }

  lemma LowBits(n: nat)
    requires n < 16
    ensures n == Weight(n / 8 % 2 == 1, 8) + Weight(n / 4 % 2 == 1, 4) + Weight(n / 2 % 2 == 1, 2) +
                 Weight(n % 2 == 1, 1)
  {
  }

  lemma SameLowBits(n: nat)
    ensures n % 16 / 8 % 2 == n / 8 % 2 && n % 16 / 4 % 2 == n / 4 % 2
    ensures n % 16 / 2 % 2 == n / 2 % 2 && n % 16 % 2 == n % 2
  {
    LowBitsOf(n / 16, n % 16);
  }

  lemma LowBitsOf(h: nat, l: nat)
    requires l < 16
    ensures var n := 16 * h + l;
      l / 8 % 2 == n / 8 % 2 && l / 4 % 2 == n / 4 % 2 && l / 2 % 2 == n / 2 % 2 && l % 2 == n % 2
  {
    assert (16 * h + l) / 8 == 2 * h + l / 8;
    assert (16 * h + l) / 4 == 4 * h + l / 4;
    assert (16 * h + l) / 2 == 8 * h + l / 2;
    Doubled(h, l / 8);
    Doubled(2 * h, l / 4);
    Doubled(4 * h, l / 2);
    Doubled(8 * h, l);
  }

  lemma Doubled(a: nat, b: nat)
    ensures (2 * a + b) % 2 == b % 2
  {
  }

  lemma OneAndPolynomial()
    ensures ByteOf(1) == [false, false, false, false, false, false, false, true]
    ensures ByteOf(0x10) == POLYNOMIAL[..8] && ByteOf(0x21) == POLYNOMIAL[8..]
  {
  }

  /** The law that names the polynomial 0x1021: it is the CRC of the byte 1. */
  lemma CrcOfOneIsThePolynomial()
    ensures Crc([ByteOf(1)]) == ByteOf(0x10) + ByteOf(0x21)
  {
    OneAndPolynomial();
    var zeros := ByteOf(1)[..7];
    assert [ByteOf(1)][1..] == [];
    assert Bits([ByteOf(1)]) == zeros + [true];
    RunAppend(Zeros(16), zeros, [true]);
    ZerosStayZero(zeros);
    OneEnters();
    assert POLYNOMIAL == POLYNOMIAL[..8] + POLYNOMIAL[8..];
  }

  lemma OneEnters()
    ensures Run(Zeros(16), [true]) == POLYNOMIAL
  {
    assert [true][1..] == [];
    EnterOne();
  }

  function Magic(text: string): (r: seq<Byte>)
    ensures |r| == |text|
  {
    seq(|text|, i requires 0 <= i < |text| => ByteOf(text[i] as nat))
  }

  /** Both section magics, no entries. */
  function EmptyDatabaseAt(i: nat): Byte {
    if i < 4 then Magic("RNOD")[i]
    else if 0x1D00 <= i < 0x1D00 + 4 then Magic("RNHD")[i - 0x1D00]
    else Zeros(8)
  }

  method WriteMagic(db: array<Byte>, offset: nat, magic: seq<Byte>)
    requires offset + |magic| <= db.Length
    modifies db
    ensures forall i | 0 <= i < db.Length ::
              db[i] == if offset <= i < offset + |magic| then magic[i - offset] else old(db[i])
  {
    for k := 0 to |magic|
      invariant forall i | 0 <= i < db.Length ::
                  db[i] == if offset <= i < offset + k then magic[i - offset] else old(db[i])
    {
      db[offset + k] := magic[k];
    }
  }

  /** The whole file has CRC zero, which is how a reader checks it. */
  method MakeEmptyMiiDatabase() returns (db: array<Byte>)
    ensures fresh(db) && db.Length == 0x1F1E0
    ensures forall i | 0 <= i < 0x1F1DE :: db[i] == EmptyDatabaseAt(i)
    ensures Crc(db[..]) == Zeros(16)
  {
    db := new Byte[MII_DATABASE_SIZE](_ => Zeros(8));
    WriteMagic(db, 0, Magic("RNOD"));
    WriteMagic(db, PARADE_OFFSET, Magic("RNHD"));
    var crc := Crc16Ccitt(db[..CRC_OFFSET]);
    ghost var covered := db[..CRC_OFFSET];
    db[CRC_OFFSET] := crc[..8];
    db[CRC_OFFSET + 1] := crc[8..];
    assert db[..] == covered + [db[CRC_OFFSET], db[CRC_OFFSET + 1]];
    assert crc[..8] + crc[8..] == crc;
    AppendedCrcIsZero(covered, crc[..8], crc[8..]);
  }
}
