/** The bit-level narrowing of a double-precision register to the single it is stored as. Patterns are
    numbers; fields are cut out by division, and the disjoint fields of a bitwise or are added. */
module SingleStore {
  import opened Arithmetic

  const P21: nat := 0x20_0000
  const P23: nat := 0x80_0000
  const P29: nat := 0x2000_0000
  const P30: nat := 0x4000_0000
  const P31: nat := 0x8000_0000
  const P32: nat := 0x1_0000_0000
  const P52: nat := 0x10_0000_0000_0000
  const P62: nat := 0x4000_0000_0000_0000
  const P63: nat := 0x8000_0000_0000_0000
  const P64: nat := 0x1_0000_0000_0000_0000

  function Exponent(bits: nat): nat { bits / P52 % 2048 }
  function Fraction(bits: nat): nat { bits % P52 }
  function Sign(bits: nat): nat { bits / P63 }

  /** `exponent - 874u <= 22u`: unsigned, so that a smaller exponent wraps around to a large number. */
  predicate SubnormalArm(exponent: nat) {
    (if exponent >= 874 then exponent - 874 else exponent - 874 + P32) <= 22
  }

  /** The fraction with its leading one, shifted right by what the exponent is short of. */
  function ShiftedFraction(exponent: nat, fraction: nat): nat
    requires exponent <= 905
  {
    (P31 + fraction / P21) / Pow2(905 - exponent)
  }

  /** The top two bits and the thirty bits below the exponent's redundant ones. */
  function MovedTogether(bits: nat): nat {
    bits / P62 * P30 + bits / P29 % P30
  }

  function ConvertPpcDoubleToSingleBits(bits: nat): nat {
    if SubnormalArm(Exponent(bits))
    then ShiftedFraction(Exponent(bits), Fraction(bits)) + Sign(bits) * P31
    else MovedTogether(bits)
  }

  /** The arm is taken for exactly the exponents 874 to 896, and its shift stays within 9 to 31. */
  lemma SubnormalArmRange(exponent: nat)
    requires exponent < 2048
    ensures SubnormalArm(exponent) <==> 874 <= exponent <= 896
    ensures SubnormalArm(exponent) ==> 9 <= 905 - exponent <= 31
  {
  }

  // ------------------------------------------------------------------------------ powers by name

  lemma Constants()
    ensures Pow2(1) == 2 && Pow2(21) == P21 && Pow2(23) == P23 && Pow2(29) == P29 && Pow2(30) == P30
    ensures Pow2(31) == P31 && Pow2(52) == P52
  {
    assert Pow2(10) == 1024;
    Pow2Add(10, 10);
    Pow2Add(1, 20);
    Pow2Add(2, 21);
    Pow2Add(8, 21);
    Pow2Add(1, 29);
    Pow2Add(1, 30);
    Pow2Add(31, 21);
  }

  // -------------------------------------------------------------------------------------- widening

  /** The highest set bit. */
  function HighBit(f: nat): (k: nat)
    requires f > 0
    ensures Pow2(k) <= f < 2 * Pow2(k)
  {
    if f == 1 then 0 else HighBit(f / 2) + 1
  }

  lemma HighBitRange(f: nat)
    requires 0 < f < P23
    ensures HighBit(f) <= 22
  {
    Constants();
    if HighBit(f) >= 23 { Pow2Monotone(23, HighBit(f)); }
  }

  lemma Complement(k: nat)
    requires k <= 52
    ensures Pow2(52 - k) * Pow2(k) == P52
  {
    Constants();
    Pow2Add(52 - k, k);
  }

  lemma Scaled(p: nat, q: nat, f: nat)
    requires p > 0 && q <= f < 2 * q
    ensures p * q <= f * p < 2 * (p * q)
  {
    Monotone(p, q, f);
    Monotone(p, f + 1, 2 * q);
  }

  /** A single's subnormal fraction, moved up until its leading one is the implicit one of a double. */
  function NormalizedFraction(f: nat): (fraction: nat)
    requires 0 < f < P23
    ensures fraction < P52
  {
    HighBitRange(f);
    Complement(HighBit(f));
    Scaled(Pow2(52 - HighBit(f)), Pow2(HighBit(f)), f);
    f * Pow2(52 - HighBit(f)) - P52
  }

  function Pattern(sign: nat, exponent: nat, fraction: nat): nat {
    sign * P63 + exponent * P52 + fraction
  }

  /** The double with exactly the value - or the payload - of the single with these fields. */
  function Widen(sign: nat, e: nat, f: nat): nat
    requires f < P23
  {
    if e == 255 then Pattern(sign, 2047, f * P29)
    else if e != 0 then Pattern(sign, e + 896, f * P29)
    else if f == 0 then Pattern(sign, 0, 0)
    else Pattern(sign, 874 + HighBit(f), NormalizedFraction(f))
  }

  function SinglePattern(sign: nat, e: nat, f: nat): nat {
    sign * P31 + e * P23 + f
  }

  /** Every 32-bit pattern is one of a sign, an exponent and a fraction. */
  lemma SingleFields(single: nat)
    requires single < P32
    ensures single == SinglePattern(single / P31, single / P23 % 256, single % P23)
    ensures single / P31 < 2 && single / P23 % 256 < 256 && single % P23 < P23
  {
  }

  lemma FieldsOf(sign: nat, exponent: nat, fraction: nat)
    requires sign < 2 && exponent < 2048 && fraction < P52
    ensures var bits := Pattern(sign, exponent, fraction);
      bits < P64 && Sign(bits) == sign && Exponent(bits) == exponent && Fraction(bits) == fraction
  {
    var bits := Pattern(sign, exponent, fraction);
    QuotientIs(bits, P52, sign * 2048 + exponent, fraction);
    QuotientIs(sign * 2048 + exponent, 2048, sign, exponent);
    QuotientIs(bits, P63, sign, exponent * P52 + fraction);
  }

  lemma MovedFields(sign: nat, exponent: nat, f: nat)
    requires sign < 2 && exponent < 2048 && f < P23
    ensures MovedTogether(Pattern(sign, exponent, f * P29)) ==
            sign * P31 + (exponent / 1024 * 128 + exponent % 128) * P23 + f
  {
    var bits := Pattern(sign, exponent, f * P29);
    QuotientIs(bits, P62, sign * 2 + exponent / 1024, exponent % 1024 * P52 + f * P29);
    var middle := sign * 0x4_0000_0000 + exponent * P23 + f;
    QuotientIs(bits, P29, middle, 0);
    QuotientIs(middle, P30, sign * 16 + exponent / 128, exponent % 128 * P23 + f);
  }

  /** The exponent's redundant bits are those between its highest and its low seven. */
  lemma MovedExponent(e: nat, exponent: nat)
    requires e < 256
    requires exponent == 0 == e || (exponent == e + 896 && 0 < e < 255) || (exponent == 2047 && e == 255)
    ensures exponent / 1024 * 128 + exponent % 128 == e && exponent < 2048 && !SubnormalArm(exponent)
  {
  }

  lemma PlainArm(sign: nat, e: nat, exponent: nat, f: nat)
    requires sign < 2 && f < P23 && e < 256
    requires exponent == 0 == e || (exponent == e + 896 && 0 < e < 255) || (exponent == 2047 && e == 255)
    ensures ConvertPpcDoubleToSingleBits(Pattern(sign, exponent, f * P29)) == SinglePattern(sign, e, f)
  {
    MovedExponent(e, exponent);
    FieldsOf(sign, exponent, f * P29);
    MovedFields(sign, exponent, f);
  }

  lemma ShiftBack(f: nat, fraction: nat, m: nat, p: nat)
    requires m > 0 && p == P21 * m && f * p == fraction + P52
    ensures (P31 + fraction / P21) / m == f
  {
    var g := f * m;
    assert f * p == P21 * g;
    QuotientIs(fraction, P21, g - P31, 0);
    QuotientIs(g, m, f, 0);
  }

  lemma PowerSplit(k: nat)
    requires k <= 31
    ensures Pow2(52 - k) == P21 * Pow2(31 - k)
  {
    Constants();
    Pow2Add(21, 31 - k);
  }

  /** Shifting by what the exponent is short of undoes the normalisation. */
  lemma NormalizedShiftsBack(f: nat)
    requires 0 < f < P23
    ensures HighBit(f) <= 22 && ShiftedFraction(874 + HighBit(f), NormalizedFraction(f)) == f
  {
    var k := HighBit(f);
    HighBitRange(f);
    PowerSplit(k);
    ShiftBack(f, NormalizedFraction(f), Pow2(31 - k), Pow2(52 - k));
  }

  lemma WidenedSubnormal(sign: nat, f: nat)
    requires sign < 2 && 0 < f < P23
    ensures ConvertPpcDoubleToSingleBits(Widen(sign, 0, f)) == SinglePattern(sign, 0, f)
  {
    var k, fraction := HighBit(f), NormalizedFraction(f);
    NormalizedShiftsBack(f);
    FieldsOf(sign, 874 + k, fraction);
    SubnormalArmRange(874 + k);
  }

  /** Storing what was widened gives the single back, whatever its pattern: zeros, subnormals, normals,
      infinities and every NaN payload. */
  lemma ConvertUndoesWiden(single: nat)
    requires single < P32
    ensures var wide := Widen(single / P31, single / P23 % 256, single % P23);
      wide < P64 && ConvertPpcDoubleToSingleBits(wide) == single
  {
    SingleFields(single);
    var sign, e, f := single / P31, single / P23 % 256, single % P23;
    if e == 255 {
      FieldsOf(sign, 2047, f * P29);
      PlainArm(sign, e, 2047, f);
    } else if e != 0 {
      FieldsOf(sign, e + 896, f * P29);
      PlainArm(sign, e, e + 896, f);
    } else if f == 0 {
      FieldsOf(sign, 0, 0);
      PlainArm(sign, e, 0, f);
    } else {
      HighBitRange(f);
      FieldsOf(sign, 874 + HighBit(f), NormalizedFraction(f));
      WidenedSubnormal(sign, f);
    }
  }

  // ---------------------------------------------------------------- the architecture's own procedure

  /** SINGLE of section 4.6.3 of Power ISA v2.07 Book I: the denormalising loop, one shift at a time. */
  function Denormalize(frac: nat, exp: int): nat
    decreases -126 - exp
  {
    if exp < -126 then Denormalize(frac / 2, exp + 1) else frac
  }

  datatype Word = Defined(bits: nat) | Undefined

  function Single(bits: nat): Word {
    if Exponent(bits) > 896 || bits % P63 == 0 then Defined(MovedTogether(bits))
    else if 874 <= Exponent(bits) then
      Defined(Sign(bits) * P31 + Denormalize(P52 + Fraction(bits), Exponent(bits) - 1023) / P29 % P23)
    else Undefined
  }

  lemma {:induction false} DenormalizeShifts(frac: nat, exp: int, n: nat)
    requires exp + n == -126
    ensures Denormalize(frac, exp) == frac / Pow2(n)
    decreases n
  {
    if n == 0 {
    } else {
      DenormalizeShifts(frac / 2, exp + 1, n - 1);
      Constants();
      DividePower(frac, 1, n - 1);
    }
  }

  lemma DenormalizedWord(frac: nat, e: int)
    requires 874 <= e <= 896
    ensures Denormalize(frac, e - 1023) / P29 == frac / Pow2(926 - e)
  {
    DenormalizeShifts(frac, e - 1023, 897 - e);
    Constants();
    DividePower(frac, 897 - e, 29);
  }

  lemma ShiftedWord(fraction: nat, e: nat)
    requires 874 <= e <= 896
    ensures ShiftedFraction(e, fraction) == (P52 + fraction) / Pow2(926 - e)
  {
    QuotientIs(P52 + fraction, P21, P31 + fraction / P21, fraction % P21);
    Constants();
    DividePower(P52 + fraction, 21, 905 - e);
  }

  lemma NarrowedIsSmall(frac: nat, n: nat)
    requires frac < 2 * P52 && 30 <= n
    ensures frac / Pow2(n) < P23
  {
    assert P30 <= Pow2(n) by {
      Constants();
      Pow2Monotone(30, n);
    }
    QuotientBelow(frac, P30, Pow2(n), P23);
  }

  /** Wherever the architecture defines the result, the conversion gives it. */
  lemma ConvertIsSingle(bits: nat)
    requires Single(bits).Defined?
    ensures ConvertPpcDoubleToSingleBits(bits) == Single(bits).bits
  {
    SubnormalArmRange(Exponent(bits));
    if 874 <= Exponent(bits) <= 896 {
      SameNarrowing(Exponent(bits), Fraction(bits));
      if bits % P63 == 0 { ZeroHasZeroExponent(bits); }
    }
  }

  /** Every pattern whose exponent is not in the subnormal arm keeps its top two bits and the thirty from bit 29 to
      bit 58 - also one too small for a single, which the architecture leaves undefined. */
  lemma OtherPatternsKeepTheirBits(bits: nat)
    requires bits < P64 && !(874 <= bits / P52 % 2048 <= 896)
    ensures var single := ConvertPpcDoubleToSingleBits(bits);
      single < P32 && single / P30 == bits / P62 && single % P30 == bits / P29 % P30
  {
    QuotientIs(MovedTogether(bits), P30, bits / P62, bits / P29 % P30);
  }

  lemma SameNarrowing(e: int, fraction: nat)
    requires 874 <= e <= 896 && fraction < P52
    ensures Denormalize(P52 + fraction, e - 1023) / P29 % P23 == ShiftedFraction(e, fraction)
  {
    ShiftedWord(fraction, e);
    DenormalizedWord(P52 + fraction, e);
    NarrowedIsSmall(P52 + fraction, 926 - e);
    var q := (P52 + fraction) / Pow2(926 - e);
    QuotientIs(q, P23, 0, q);
  }

  lemma ZeroHasZeroExponent(bits: nat)
    requires bits % P63 == 0
    ensures Exponent(bits) == 0
  {
    QuotientIs(bits, P52, bits / P63 * 2048, 0);
    QuotientIs(bits / P63 * 2048, 2048, bits / P63, 0);
  }
}
