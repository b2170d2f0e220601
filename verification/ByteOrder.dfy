/** Guest scalars are big-endian, the host is little-endian: values are swapped around every access. */
module ByteOrder {
  import opened Arithmetic
  import opened Basics

  function Pow256(n: nat): nat
    ensures Pow256(n) > 0
  {
    if n == 0 then 1 else 256 * Pow256(n - 1)
  }

  /** How a little-endian host lays a scalar of `n` bytes out in memory. */
  function ToHost(v: nat, n: nat): (bytes: seq<Byte>)
    ensures |bytes| == n
  {
    if n == 0 then [] else [v % 256] + ToHost(v / 256, n - 1)
  }

  function FromHost(bytes: seq<Byte>): nat {
    if bytes == [] then 0 else bytes[0] + 256 * FromHost(bytes[1..])
  }

  function Reverse(s: seq<Byte>): (r: seq<Byte>)
    ensures |r| == |s|
    ensures forall i | 0 <= i < |s| :: r[i] == s[|s| - 1 - i]
  {
    seq(|s|, i requires 0 <= i < |s| => s[|s| - 1 - i])
  }

  /** The byte swap of an `n`-byte scalar; a single byte is left alone. */
  function MaybeByteSwap(v: nat, n: nat): nat {
    FromHost(Reverse(ToHost(v, n)))
  }

  /** What the guest sees in memory: the most significant byte first. */
  function BigEndian(v: nat, n: nat): seq<Byte> {
    if n == 0 then [] else BigEndian(v / 256, n - 1) + [v % 256]
  }

  lemma {:induction false} FromHostToHost(bytes: seq<Byte>)
    ensures ToHost(FromHost(bytes), |bytes|) == bytes
    ensures FromHost(bytes) < Pow256(|bytes|)
  {
    if bytes == [] {
    } else {
      FromHostToHost(bytes[1..]);
      assert FromHost(bytes) % 256 == bytes[0] && FromHost(bytes) / 256 == FromHost(bytes[1..]);
    }
  }

  lemma {:induction false} ToHostFromHost(v: nat, n: nat)
    requires v < Pow256(n)
    ensures FromHost(ToHost(v, n)) == v
  {
    if n == 0 {
    } else {
      ToHostFromHost(v / 256, n - 1);
      assert ToHost(v, n)[1..] == ToHost(v / 256, n - 1);
    }
  }

  lemma ReverseFirst(first: Byte, rest: seq<Byte>)
    ensures Reverse([first] + rest) == Reverse(rest) + [first]
  {
  }

  lemma {:induction false} BigEndianIsReversed(v: nat, n: nat)
    ensures BigEndian(v, n) == Reverse(ToHost(v, n))
  {
    if n == 0 {
    } else {
      BigEndianIsReversed(v / 256, n - 1);
      ReverseFirst(v % 256, ToHost(v / 256, n - 1));
    }
  }

  /** Storing a swapped value lays it out most significant byte first. */
  lemma SwappedIsBigEndian(v: nat, n: nat)
    ensures ToHost(MaybeByteSwap(v, n), n) == BigEndian(v, n)
    ensures MaybeByteSwap(v, n) < Pow256(n)
  {
    FromHostToHost(Reverse(ToHost(v, n)));
    BigEndianIsReversed(v, n);
  }

  /** Loading what was stored swaps it back. */
  lemma LoadUndoesStore(v: nat, n: nat)
    requires v < Pow256(n)
    ensures MaybeByteSwap(FromHost(BigEndian(v, n)), n) == v
  {
    FromHostToHost(BigEndian(v, n));
    BigEndianIsReversed(v, n);
    assert Reverse(Reverse(ToHost(v, n))) == ToHost(v, n);
    ToHostFromHost(v, n);
  }

  lemma {:induction false} FromHostAppend(a: seq<Byte>, b: seq<Byte>)
    ensures FromHost(a + b) == FromHost(a) + Pow256(|a|) * FromHost(b)
  {
    if a == [] {
      assert a + b == b;
    } else {
      FromHostAppend(a[1..], b);
      assert (a + b)[1..] == a[1..] + b;
      assert 256 * (Pow256(|a| - 1) * FromHost(b)) == Pow256(|a|) * FromHost(b);
    }
  }

  /** What a load of the bytes yields. */
  function LoadValue(bytes: seq<Byte>): nat {
    MaybeByteSwap(FromHost(bytes), |bytes|)
  }

  lemma LoadIsReversed(bytes: seq<Byte>)
    ensures LoadValue(bytes) == FromHost(Reverse(bytes)) < Pow256(|bytes|)
  {
    FromHostToHost(bytes);
    FromHostToHost(Reverse(bytes));
  }

  /** One packed load of two adjacent scalars, split by shifting, gives what two loads give. */
  lemma PairLoadIsTwoLoads(first: seq<Byte>, second: seq<Byte>)
    requires |first| == |second|
    ensures LoadValue(first + second) / Pow256(|second|) == LoadValue(first)
    ensures LoadValue(first + second) % Pow256(|second|) == LoadValue(second)
  {
    var low, high := Reverse(second), Reverse(first);
    assert LoadValue(first + second) == FromHost(low + high) by {
      LoadIsReversed(first + second);
      assert Reverse(first + second) == low + high;
    }
    assert LoadValue(first) == FromHost(high) by { LoadIsReversed(first); }
    assert LoadValue(second) == FromHost(low) by { LoadIsReversed(second); }
    PackedIsWeighted(low, high, Pow256(|second|));
  }

  lemma PackedIsWeighted(low: seq<Byte>, high: seq<Byte>, m: nat)
    requires m == Pow256(|low|)
    ensures FromHost(low + high) / m == FromHost(high)
    ensures FromHost(low + high) % m == FromHost(low)
  {
    FromHostToHost(low);
    FromHostAppend(low, high);
    QuotientIs(FromHost(low + high), m, FromHost(high), FromHost(low));
  }
}
