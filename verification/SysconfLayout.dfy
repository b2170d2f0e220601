/** The layout of SYSCONF: a table of offsets, chunks of bytes one after another, and a footer. */
module SysconfLayout {
  import opened Basics

  const SIZE: nat := 0x4000
  const TABLE: nat := 6
  const LIMIT: nat := 0x3FAE
  const FOOTER: nat := 0x3FFC

  /** Truncated to 16 bits, high byte first. */
  function U16(n: nat): (r: seq<Byte>)
    ensures |r| == 2
  {
    [n / 256 % 256, n % 256]
  }

  function U16At(file: seq<Byte>, p: nat): nat
    requires p + 2 <= |file|
  {
    var high: nat, low: nat := file[p], file[p + 1];
    high * 256 + low
  }

  lemma U16Reads(n: nat)
    requires n < 0x10000
    ensures n / 256 % 256 * 256 + n % 256 == n
  {
  }

  function Put(file: seq<Byte>, offset: nat, bytes: seq<Byte>): (r: seq<Byte>)
    requires offset + |bytes| <= |file|
    ensures |r| == |file|
  {
    file[..offset] + bytes + file[offset + |bytes|..]
  }

  /** One chunk: its offset in slot `i` of the table, its bytes at the cursor. */
  function Place(file: seq<Byte>, i: nat, cursor: nat, chunk: seq<Byte>): (r: seq<Byte>)
    requires TABLE + 2 * i + 2 <= cursor && cursor + |chunk| <= |file|
    ensures |r| == |file|
  {
    Put(Put(file, TABLE + 2 * i, U16(cursor)), cursor, chunk)
  }

  /** The chunks, numbered from `i` on, written until one does not fit. */
  function Fill(file: seq<Byte>, chunks: seq<seq<Byte>>, i: nat, cursor: nat): (r: seq<Byte>)
    requires |file| == SIZE && TABLE + 2 * (i + |chunks| + 1) <= cursor
    ensures |r| == SIZE
    decreases |chunks|
  {
    if chunks == [] || cursor + |chunks[0]| > LIMIT then file
    else Fill(Place(file, i, cursor, chunks[0]), chunks[1..], i + 1, cursor + |chunks[0]|)
  }

  function FirstOffset(count: nat): nat {
    TABLE + 2 * (count + 1)
  }

  function Ascii(text: string): (r: seq<Byte>)
    ensures |r| == |text|
  {
    seq(|text|, i requires 0 <= i < |text| => text[i] as nat % 256)
  }

  function ZeroBytes(n: nat): (r: seq<Byte>)
    ensures |r| == n && forall i | 0 <= i < n :: r[i] == 0
  {
    seq(n, _ => 0)
  }

  /** The magic and the count, before any chunk. */
  function Headed(count: nat): (r: seq<Byte>)
    ensures |r| == SIZE && r[4..6] == U16(count)
    ensures forall p | 6 <= p < SIZE :: r[p] == 0
  {
    Put(Put(ZeroBytes(SIZE), 0, Ascii("SCv0")), 4, U16(count))
  }

  function Image(chunks: seq<seq<Byte>>): (r: seq<Byte>)
    ensures |r| == SIZE
  {
    Put(Fill(Headed(|chunks|), chunks, 0, FirstOffset(|chunks|)), FOOTER, Ascii("SCed"))
  }

  // ---------------------------------------------------------------------------------- what is placed

  /** How many chunks are placed. */
  function Placed(chunks: seq<seq<Byte>>, cursor: nat): (r: nat)
    ensures r <= |chunks|
  {
    if chunks == [] || cursor + |chunks[0]| > LIMIT then 0
    else 1 + Placed(chunks[1..], cursor + |chunks[0]|)
  }

  function Offset(chunks: seq<seq<Byte>>, cursor: nat, k: nat): nat
    requires k <= |chunks|
    decreases k
  {
    if k == 0 then cursor else Offset(chunks[1..], cursor + |chunks[0]|, k - 1)
  }

  /** Each chunk ends where the next begins, and the last ends by 0x3FAE. */
  lemma {:induction false} ChunksDoNotOverlap(chunks: seq<seq<Byte>>, cursor: nat, k: nat)
    requires k < Placed(chunks, cursor)
    ensures cursor <= Offset(chunks, cursor, k)
    ensures Offset(chunks, cursor, k + 1) == Offset(chunks, cursor, k) + |chunks[k]| <= LIMIT
    decreases k
  {
    if k == 0 {
    } else {
      ChunksDoNotOverlap(chunks[1..], cursor + |chunks[0]|, k - 1);
    }
  }

  function Length(chunks: seq<seq<Byte>>): nat {
    if chunks == [] then 0 else |chunks[0]| + Length(chunks[1..])
  }

  predicate Fits(chunks: seq<seq<Byte>>) {
    FirstOffset(|chunks|) + Length(chunks) <= LIMIT
  }

  lemma {:induction false} PlacedAll(chunks: seq<seq<Byte>>, cursor: nat)
    requires chunks == [] ==> cursor <= LIMIT
    ensures Placed(chunks, cursor) == |chunks| <==> cursor + Length(chunks) <= LIMIT
    decreases |chunks|
  {
    if chunks == [] || cursor + |chunks[0]| > LIMIT {
    } else {
      PlacedAll(chunks[1..], cursor + |chunks[0]|);
    }
  }

  lemma PlaceKeeps(file: seq<Byte>, i: nat, cursor: nat, chunk: seq<Byte>, p: nat)
    requires TABLE + 2 * i + 2 <= cursor && cursor + |chunk| <= |file| && p < |file|
    requires p < TABLE + 2 * i || TABLE + 2 * i + 2 <= p < cursor || cursor + |chunk| <= p
    ensures Place(file, i, cursor, chunk)[p] == file[p]
  {
  }

  lemma PlacePuts(file: seq<Byte>, i: nat, cursor: nat, chunk: seq<Byte>)
    requires TABLE + 2 * i + 2 <= cursor && cursor + |chunk| <= |file| && cursor < 0x10000
    ensures U16At(Place(file, i, cursor, chunk), TABLE + 2 * i) == cursor
    ensures Holds(Place(file, i, cursor, chunk), cursor, chunk)
  {
    var slot := TABLE + 2 * i;
    var slotted, placed := Put(file, slot, U16(cursor)), Place(file, i, cursor, chunk);
    U16Reads(cursor);
    forall k | 0 <= k < |chunk| ensures ByteAt(placed, cursor, k) == chunk[k] {
    }
  }

  /** Filling writes nothing but its own table slots and the stretch from the cursor to the limit. */
  lemma {:induction false} FillKeeps(file: seq<Byte>, chunks: seq<seq<Byte>>, i: nat, cursor: nat, p: nat)
    requires |file| == SIZE && TABLE + 2 * (i + |chunks| + 1) <= cursor && p < SIZE
    requires p < TABLE + 2 * i || TABLE + 2 * (i + |chunks|) <= p < cursor || LIMIT <= p
    ensures Fill(file, chunks, i, cursor)[p] == file[p]
    decreases |chunks|
  {
    if chunks == [] || cursor + |chunks[0]| > LIMIT {
    } else {
      var next := Place(file, i, cursor, chunks[0]);
      PlaceKeeps(file, i, cursor, chunks[0], p);
      FillKeeps(next, chunks[1..], i + 1, cursor + |chunks[0]|, p);
      assert Fill(file, chunks, i, cursor) == Fill(next, chunks[1..], i + 1, cursor + |chunks[0]|);
    }
  }

  /** Whatever the chunks, the space from 0x3FAE on holds nothing but the footer. */
  lemma TailIsFooter(chunks: seq<seq<Byte>>, p: nat)
    requires 0x3FAE <= p < 0x4000
    ensures Image(chunks)[p] == if p < 0x3FFC then 0 else [0x53, 0x43, 0x65, 0x64][p - 0x3FFC]
  {
    assert Ascii("SCed") == [0x53, 0x43, 0x65, 0x64];
    FillKeeps(Headed(|chunks|), chunks, 0, FirstOffset(|chunks|), p);
  }

  /** The file starts with "SCv0" and the count, high byte first; the table follows, and then the first chunk. */
  lemma HeadIsMagicAndCount(chunks: seq<seq<Byte>>, p: nat)
    requires p < 6
    ensures Image(chunks)[p] == [0x53, 0x43, 0x76, 0x30, |chunks| / 256 % 256, |chunks| % 256][p]
    ensures Offset(chunks, FirstOffset(|chunks|), 0) == 6 + 2 * |chunks| + 2
  {
    HeadedBytes(|chunks|, p);
    FillKeeps(Headed(|chunks|), chunks, 0, FirstOffset(|chunks|), p);
  }

  lemma HeadedBytes(count: nat, p: nat)
    requires p < 6
    ensures Headed(count)[p] == [0x53, 0x43, 0x76, 0x30, count / 256 % 256, count % 256][p]
  {
    assert Ascii("SCv0") == [0x53, 0x43, 0x76, 0x30];
    if p >= 4 { assert Headed(count)[p] == Headed(count)[4..6][p - 4]; }
  }

  // ---------------------------------------------------------------------------------- what is found

  predicate Holds(file: seq<Byte>, p: nat, bytes: seq<Byte>) {
    p + |bytes| <= |file| && forall k | 0 <= k < |bytes| :: ByteAt(file, p, k) == bytes[k]
  }

  function ByteAt(file: seq<Byte>, p: nat, k: nat): Byte
    requires p + k < |file|
  {
    file[p + k]
  }

  /** What stands in an earlier slot and before the cursor stays as the other chunks follow. */
  lemma EarlierStays(file: seq<Byte>, chunks: seq<seq<Byte>>, i: nat, cursor: nat, start: nat, chunk: seq<Byte>)
    requires |file| == SIZE && 0 < i && TABLE + 2 * (i + |chunks| + 1) <= start && start + |chunk| == cursor <= LIMIT
    requires U16At(file, TABLE + 2 * (i - 1)) == start && Holds(file, start, chunk)
    ensures U16At(Fill(file, chunks, i, cursor), TABLE + 2 * (i - 1)) == start
    ensures Holds(Fill(file, chunks, i, cursor), start, chunk)
  {
    var filled, slot := Fill(file, chunks, i, cursor), TABLE + 2 * (i - 1);
    forall q | slot <= q < slot + 2 || start <= q < cursor ensures filled[q] == file[q] {
      FillKeeps(file, chunks, i, cursor, q);
    }
  }

  /** The first placed chunk stays as it was written while the others follow. */
  lemma PlacedStays(file: seq<Byte>, chunks: seq<seq<Byte>>, i: nat, cursor: nat)
    requires |file| == SIZE && TABLE + 2 * (i + |chunks| + 1) <= cursor
    requires chunks != [] && cursor + |chunks[0]| <= LIMIT
    ensures U16At(Fill(file, chunks, i, cursor), TABLE + 2 * i) == cursor
    ensures Holds(Fill(file, chunks, i, cursor), cursor, chunks[0])
  {
    PlacePuts(file, i, cursor, chunks[0]);
    EarlierStays(Place(file, i, cursor, chunks[0]), chunks[1..], i + 1, cursor + |chunks[0]|, cursor, chunks[0]);
  }

  /** Every placed chunk stands at the offset its slot of the table names. */
  lemma {:induction false} PlacedIsFound(file: seq<Byte>, chunks: seq<seq<Byte>>, i: nat, cursor: nat, k: nat)
    requires |file| == SIZE && TABLE + 2 * (i + |chunks| + 1) <= cursor
    requires k < Placed(chunks, cursor)
    ensures U16At(Fill(file, chunks, i, cursor), TABLE + 2 * (i + k)) == Offset(chunks, cursor, k)
    ensures Holds(Fill(file, chunks, i, cursor), Offset(chunks, cursor, k), chunks[k])
    decreases k
  {
    if k == 0 {
      PlacedStays(file, chunks, i, cursor);
    } else {
      PlacedIsFound(Place(file, i, cursor, chunks[0]), chunks[1..], i + 1, cursor + |chunks[0]|, k - 1);
    }
  }

  /** The slot after the last placed chunk is zero: it ends the table. */
  lemma {:induction false} TableEnds(file: seq<Byte>, chunks: seq<seq<Byte>>, i: nat, cursor: nat, slot: nat)
    requires |file| == SIZE && TABLE + 2 * (i + |chunks| + 1) <= cursor
    requires slot == TABLE + 2 * (i + Placed(chunks, cursor)) && slot + 2 <= SIZE
    requires forall p | TABLE + 2 * i <= p < TABLE + 2 * (i + |chunks| + 1) && p < SIZE :: file[p] == 0
    ensures U16At(Fill(file, chunks, i, cursor), slot) == 0
    decreases |chunks|
  {
    if chunks == [] || cursor + |chunks[0]| > LIMIT {
    } else {
      var next, first, end := Place(file, i, cursor, chunks[0]), TABLE + 2 * (i + 1), TABLE + 2 * (i + |chunks| + 1);
      forall p | first <= p < end && p < SIZE ensures next[p] == 0 {
        PlaceKeeps(file, i, cursor, chunks[0], p);
      }
      TableEnds(next, chunks[1..], i + 1, cursor + |chunks[0]|, slot);
    }
  }

  /** The table of a finished file, read up to its zero entry, names the placed chunks and nothing else. */
  lemma ImageIsFound(chunks: seq<seq<Byte>>, k: nat)
    requires k < Placed(chunks, FirstOffset(|chunks|))
    ensures var offset := Offset(chunks, FirstOffset(|chunks|), k);
      TABLE + 2 * k + 2 <= SIZE && U16At(Image(chunks), TABLE + 2 * k) == offset > 0 &&
      Holds(Image(chunks), offset, chunks[k]) &&
      Image(chunks)[6 + 2 * k] == offset / 256 && Image(chunks)[6 + 2 * k + 1] == offset % 256
  {
    var first := FirstOffset(|chunks|);
    var filled := Fill(Headed(|chunks|), chunks, 0, first);
    ChunksDoNotOverlap(chunks, first, k);
    ChunksDoNotOverlap(chunks, first, 0);
    PlacedIsFound(Headed(|chunks|), chunks, 0, first, k);
  }

  lemma NamedBelowFooter(filled: seq<Byte>, slot: nat)
    requires |filled| == SIZE && slot + 2 <= LIMIT
    ensures U16At(Put(filled, FOOTER, Ascii("SCed")), slot) == U16At(filled, slot)
  {
  }

  lemma FilledEnds(headed: seq<Byte>, chunks: seq<seq<Byte>>, slot: nat)
    requires |headed| == SIZE && forall p | TABLE <= p < SIZE :: headed[p] == 0
    requires slot == TABLE + 2 * Placed(chunks, FirstOffset(|chunks|)) && slot + 2 <= LIMIT
    ensures U16At(Fill(headed, chunks, 0, FirstOffset(|chunks|)), slot) == 0
  {
    TableEnds(headed, chunks, 0, FirstOffset(|chunks|), slot);
  }

  lemma ImageEnds(chunks: seq<seq<Byte>>, slot: nat)
    requires slot == TABLE + 2 * Placed(chunks, FirstOffset(|chunks|))
    ensures slot + 2 <= LIMIT && U16At(Image(chunks), slot) == 0
  {
    FilledEnds(Headed(|chunks|), chunks, slot);
    NamedBelowFooter(Fill(Headed(|chunks|), chunks, 0, FirstOffset(|chunks|)), slot);
  }

  /** The count in the header is that of the list, placed or not: it is the number of chunks in the table
      exactly when the list fits. */
  lemma CountIsOfTheList(chunks: seq<seq<Byte>>)
    requires |chunks| < 0x10000
    ensures U16At(Image(chunks), 4) == |chunks|
    ensures U16At(Image(chunks), 4) == Placed(chunks, FirstOffset(|chunks|)) <==> Fits(chunks)
  {
    var headed := Headed(|chunks|);
    FillKeeps(headed, chunks, 0, FirstOffset(|chunks|), 4);
    FillKeeps(headed, chunks, 0, FirstOffset(|chunks|), 5);
    assert headed[4] == headed[4..6][0] && headed[5] == headed[4..6][1];
    U16Reads(|chunks|);
    PlacedAll(chunks, FirstOffset(|chunks|));
  }
}
