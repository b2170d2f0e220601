/** The SYSCONF writer, and a reader of the layout it documents. */
module Sysconf {
  import opened Basics
  import opened SysconfLayout

  datatype ItemType = BigArray | SmallArray | OneByte | Short | Long | LongLong | Bool
  datatype Item = Item(name: seq<Byte>, kind: ItemType, data: seq<Byte>)

  function Code(kind: ItemType): (r: nat)
    ensures 1 <= r <= 7
  {
    match kind
    case BigArray => 1
    case SmallArray => 2
    case OneByte => 3
    case Short => 4
    case Long => 5
    case LongLong => 6
    case Bool => 7
  }

  // ----------------------------------------------------------------------------------- what is written

  /** Type in the high three bits; in the low five the name's length less one, wrapped. */
  function Header(item: Item): Byte {
    Code(item.kind) * 32 + (|item.name| + 31) % 32
  }

  /** The stored length of an array, less one and wrapped, in the width the type has for it. */
  function LengthField(item: Item): seq<Byte> {
    match item.kind
    case BigArray => U16(|item.data| + 0xFFFF)
    case SmallArray => [(|item.data| + 0xFF) % 0x100]
    case _ => []
  }

  function Encode(item: Item): (r: seq<Byte>)
    ensures |r| == 1 + |item.name| + |LengthField(item)| + |item.data|
  {
    [Header(item)] + (item.name + (LengthField(item) + item.data))
  }

  function Encodings(items: seq<Item>): (r: seq<seq<Byte>>)
    ensures |r| == |items| && forall i | 0 <= i < |items| :: r[i] == Encode(items[i])
  {
    seq(|items|, i requires 0 <= i < |items| => Encode(items[i]))
  }

  // ---------------------------------------------------------------------------------------- the loop

  method Copy(file: array<Byte>, offset: nat, bytes: seq<Byte>)
    requires offset + |bytes| <= file.Length
    modifies file
    ensures file[..] == Put(old(file[..]), offset, bytes)
  {
    for k := 0 to |bytes|
      invariant forall p | 0 <= p < file.Length ::
                  file[p] == if offset <= p < offset + k then bytes[p - offset] else old(file[p])
    {
      file[offset + k] := bytes[k];
    }
  }

  method Write16(file: array<Byte>, offset: nat, value: nat)
    requires offset + 2 <= file.Length
    modifies file
    ensures file[..] == Put(old(file[..]), offset, U16(value))
  {
    file[offset] := value / 256 % 256;
    file[offset + 1] := value % 256;
  }

  lemma PutPut(file: seq<Byte>, offset: nat, a: seq<Byte>, b: seq<Byte>)
    requires offset + |a| + |b| <= |file|
    ensures Put(Put(file, offset, a), offset + |a|, b) == Put(file, offset, a + b)
  {
  }

  method WriteLength(file: array<Byte>, item: Item, start: nat) returns (cursor: nat)
    requires start + |LengthField(item)| <= file.Length
    modifies file
    ensures cursor == start + |LengthField(item)| && file[..] == Put(old(file[..]), start, LengthField(item))
  {
    if item.kind.BigArray? {
      Write16(file, start, |item.data| + 0xFFFF);
      cursor := start + 2;
    } else if item.kind.SmallArray? {
      file[start] := (|item.data| + 0xFF) % 0x100;
      cursor := start + 1;
    } else {
      cursor := start;
    }
  }

  method WriteItem(file: array<Byte>, item: Item, start: nat) returns (cursor: nat)
    requires start + |Encode(item)| <= file.Length
    modifies file
    ensures cursor == start + |Encode(item)| && file[..] == Put(old(file[..]), start, Encode(item))
  {
    ghost var before := file[..];
    file[start] := Header(item);
    assert file[..] == Put(before, start, [Header(item)]);
    Copy(file, start + 1, item.name);
    cursor := start + 1 + |item.name|;
    cursor := WriteLength(file, item, cursor);
    Copy(file, cursor, item.data);
    cursor := cursor + |item.data|;
    FourPuts(before, start, [Header(item)], item.name, LengthField(item), item.data);
  }

  lemma FourPuts(file: seq<Byte>, p: nat, a: seq<Byte>, b: seq<Byte>, c: seq<Byte>, d: seq<Byte>)
    requires p + |a| + |b| + |c| + |d| <= |file|
    ensures Put(Put(Put(Put(file, p, a), p + |a|, b), p + |a| + |b|, c), p + |a| + |b| + |c|, d) ==
            Put(file, p, a + (b + (c + d)))
  {
    PutPut(file, p, a, b);
    PutPut(file, p, a + b, c);
    PutPut(file, p, a + b + c, d);
    assert a + b + c + d == a + (b + (c + d));
  }

  /** One round of the writer's loop. */
  method PlaceItem(file: array<Byte>, item: Item, i: nat, start: nat) returns (cursor: nat)
    requires TABLE + 2 * i + 2 <= start && start + |Encode(item)| <= file.Length
    modifies file
    ensures cursor == start + |Encode(item)| && file[..] == Place(old(file[..]), i, start, Encode(item))
  {
    ghost var before := file[..];
    Write16(file, TABLE + i * 2, start);
    assert file[..] == Put(before, TABLE + 2 * i, U16(start));
    cursor := WriteItem(file, item, start);
    assert file[..] == Put(Put(before, TABLE + 2 * i, U16(start)), start, Encode(item));
  }

  /** One round of the writer's loop: `filled` is what the rounds from here on make of the file. */
  method WriteNext(file: array<Byte>, items: seq<Item>, i: nat, start: nat, ghost filled: seq<Byte>)
    returns (more: bool, cursor: nat)
    requires i < |items| && FillsTo(file[..], Encodings(items), i, start, filled)
    modifies file
    ensures more ==> FillsTo(file[..], Encodings(items), i + 1, cursor, filled)
    ensures !more ==> file[..] == filled
  {
    FillStep(file[..], Encodings(items), i, start, filled);
    if start + 1 + |items[i].name| + |LengthField(items[i])| + |items[i].data| > LIMIT { return false, start; }
    cursor := PlaceItem(file, items[i], i, start);
    more := true;
  }

  method WriteItems(file: array<Byte>, items: seq<Item>)
    requires file.Length == SIZE
    modifies file
    ensures file[..] == Fill(old(file[..]), Encodings(items), 0, FirstOffset(|items|))
  {
    ghost var filled := Fill(file[..], Encodings(items), 0, FirstOffset(|items|));
    var more, cursor: nat, i: nat := true, TABLE + (|items| + 1) * 2, 0;
    assert Encodings(items)[0..] == Encodings(items);
    while more && i < |items|
      invariant 0 <= i <= |items|
      invariant if more then FillsTo(file[..], Encodings(items), i, cursor, filled) else file[..] == filled
      decreases more, |items| - i
    {
      more, cursor := WriteNext(file, items, i, cursor, filled);
      if more { i := i + 1; }
    }
    assert Encodings(items)[|items|..] == [];
  }

  method MakeSysconf(items: seq<Item>) returns (file: array<Byte>)
    ensures fresh(file) && file[..] == Image(Encodings(items))
  {
    file := new Byte[SIZE](_ => 0);
    assert file[..] == ZeroBytes(SIZE);
    Copy(file, 0, Ascii("SCv0"));
    Write16(file, 4, |items|);
    WriteItems(file, items);
    Copy(file, FOOTER, Ascii("SCed"));
  }

  /** What is still to be written makes `filled` of the file. */
  predicate FillsTo(file: seq<Byte>, chunks: seq<seq<Byte>>, i: nat, cursor: nat, filled: seq<Byte>) {
    |file| == SIZE && i <= |chunks| && FirstOffset(|chunks|) <= cursor && Fill(file, chunks[i..], i, cursor) == filled
  }

  lemma FillStep(file: seq<Byte>, chunks: seq<seq<Byte>>, i: nat, cursor: nat, filled: seq<Byte>)
    requires i < |chunks| && FillsTo(file, chunks, i, cursor, filled)
    ensures if cursor + |chunks[i]| > LIMIT then file == filled
            else FillsTo(Place(file, i, cursor, chunks[i]), chunks, i + 1, cursor + |chunks[i]|, filled)
  {
    assert chunks[i..][1..] == chunks[i + 1..];
  }

  // ------------------------------------------------------------------------------------- the reader

  function Slice(file: seq<Byte>, p: nat, length: nat): Option<seq<Byte>> {
    if p + length <= |file| then Some(file[p..p + length]) else None
  }

  function NatAt(file: seq<Byte>, p: nat): nat
    requires p < |file|
  {
    file[p]
  }

  /** How many bytes hold the length of a value of this type, and the length. */
  function ValueExtent(file: seq<Byte>, p: nat, code: nat): Option<(nat, nat)> {
    if code == 1 then (if p + 2 <= |file| then Some((2, U16At(file, p) + 1)) else None)
    else if code == 2 then (if p < |file| then Some((1, NatAt(file, p) + 1)) else None)
    else if code == 3 || code == 7 then Some((0, 1))
    else if code == 4 then Some((0, 2))
    else if code == 5 then Some((0, 4))
    else if code == 6 then Some((0, 8))
    else None
  }

  function KindOf(code: nat): ItemType {
    if code == 1 then BigArray
    else if code == 2 then SmallArray
    else if code == 3 then OneByte
    else if code == 4 then Short
    else if code == 5 then Long
    else if code == 6 then LongLong
    else Bool
  }

  /** What stands after the header byte: the name, the length field of an array, the value. */
  function DecodeRest(file: seq<Byte>, p: nat, code: nat, nameLength: nat): Option<Item> {
    var name, extent := Slice(file, p, nameLength), ValueExtent(file, p + nameLength, code);
    if name.None? || extent.None? then None
    else
      var data := Slice(file, p + nameLength + extent.value.0, extent.value.1);
      if data.None? then None else Some(Item(name.value, KindOf(code), data.value))
  }

  function DecodeItem(file: seq<Byte>, p: nat): Option<Item> {
    if p < |file| then DecodeRest(file, p + 1, NatAt(file, p) / 32, NatAt(file, p) % 32 + 1) else None
  }

  /** The items of the table from slot `i` on, up to its zero entry. */
  function DecodeFrom(file: seq<Byte>, i: nat): Option<seq<Item>>
    decreases |file| - (TABLE + 2 * i)
  {
    if TABLE + 2 * i + 2 > |file| then None
    else if U16At(file, TABLE + 2 * i) == 0 then Some([])
    else
      var item, rest := DecodeItem(file, U16At(file, TABLE + 2 * i)), DecodeFrom(file, i + 1);
      if item.None? || rest.None? then None else Some([item.value] + rest.value)
  }

  /** Names of 1 to 32 characters, arrays that their length field can hold, scalars of their own width. */
  predicate WellFormed(item: Item) {
    1 <= |item.name| <= 32 &&
    match item.kind
    case BigArray => 1 <= |item.data| <= 0x10000
    case SmallArray => 1 <= |item.data| <= 0x100
    case OneByte => |item.data| == 1
    case Short => |item.data| == 2
    case Long => |item.data| == 4
    case LongLong => |item.data| == 8
    case Bool => |item.data| == 1
  }

  /** An item's bytes: the type and the length of the name less one, the name, for an array the length of the value
      less one in two bytes or in one, high byte first, and the value. */
  lemma EncodedAs(item: Item)
    requires WellFormed(item)
    ensures var kind := match item.kind
        case BigArray => 1 case SmallArray => 2 case OneByte => 3 case Short => 4
        case Long => 5 case LongLong => 6 case Bool => 7;
      Encode(item) ==
        [kind * 32 + (|item.name| - 1)] + item.name +
        (if item.kind.BigArray? then [(|item.data| - 1) / 256, (|item.data| - 1) % 256]
         else if item.kind.SmallArray? then [|item.data| - 1]
         else []) + item.data
  {
    ShortLength(|item.name|);
    assert LengthField(item) == if item.kind.BigArray? then [(|item.data| - 1) / 256, (|item.data| - 1) % 256]
                                else if item.kind.SmallArray? then [|item.data| - 1]
                                else [];
  }

  lemma HeaderReads(code: nat, length: nat)
    requires 1 <= length <= 32
    ensures (code * 32 + (length + 31) % 32) / 32 == code && (code * 32 + (length + 31) % 32) % 32 + 1 == length
  {
    var low := (length + 31) % 32;
    ShortLength(length);
    HeaderParts(code, low);
  }

  lemma ShortLength(length: nat)
    requires 1 <= length <= 32
    ensures (length + 31) % 32 == length - 1
  {
  }

  lemma HeaderParts(code: nat, low: nat)
    requires low < 32
    ensures (code * 32 + low) / 32 == code && (code * 32 + low) % 32 == low
  {
  }

  lemma HoldsParts(file: seq<Byte>, p: nat, a: seq<Byte>, b: seq<Byte>)
    requires Holds(file, p, a + b)
    ensures Holds(file, p, a) && Holds(file, p + |a|, b)
  {
    forall k | 0 <= k < |a| ensures ByteAt(file, p, k) == a[k] {
      assert (a + b)[k] == a[k];
    }
    forall k | 0 <= k < |b| ensures ByteAt(file, p + |a|, k) == b[k] {
      assert ByteAt(file, p, |a| + k) == (a + b)[|a| + k];
    }
  }

  lemma HeldIsSliced(file: seq<Byte>, p: nat, bytes: seq<Byte>)
    requires Holds(file, p, bytes)
    ensures Slice(file, p, |bytes|) == Some(bytes)
  {
    forall k | 0 <= k < |bytes| ensures file[p..p + |bytes|][k] == bytes[k] {
      assert ByteAt(file, p, k) == bytes[k];
    }
    assert file[p..p + |bytes|] == bytes;
  }

  /** An item is read back where it was written. */
  lemma DecodesWritten(file: seq<Byte>, p: nat, item: Item)
    requires WellFormed(item) && Holds(file, p, Encode(item))
    ensures DecodeItem(file, p) == Some(item)
  {
    HoldsParts(file, p, [Header(item)], item.name + (LengthField(item) + item.data));
    assert ByteAt(file, p, 0) == Header(item);
    HeaderReads(Code(item.kind), |item.name|);
    DecodesRest(file, p + 1, item);
  }

  lemma DecodesRest(file: seq<Byte>, p: nat, item: Item)
    requires WellFormed(item) && Holds(file, p, item.name + (LengthField(item) + item.data))
    ensures DecodeRest(file, p, Code(item.kind), |item.name|) == Some(item)
  {
    var field := LengthField(item);
    HoldsParts(file, p, item.name, field + item.data);
    HoldsParts(file, p + |item.name|, field, item.data);
    HeldIsSliced(file, p, item.name);
    HeldIsSliced(file, p + |item.name| + |field|, item.data);
    ExtentReads(file, p + |item.name|, item);
    assert KindOf(Code(item.kind)) == item.kind;
  }

  lemma ExtentReads(file: seq<Byte>, p: nat, item: Item)
    requires WellFormed(item) && Holds(file, p, LengthField(item))
    ensures ValueExtent(file, p, Code(item.kind)) == Some((|LengthField(item)|, |item.data|))
  {
    if item.kind.BigArray? {
      assert ByteAt(file, p, 0) == U16(|item.data| + 0xFFFF)[0] && ByteAt(file, p, 1) == U16(|item.data| + 0xFFFF)[1];
    } else if item.kind.SmallArray? {
      assert ByteAt(file, p, 0) == (|item.data| + 0xFF) % 0x100;
      NarrowFieldReads(|item.data|);
    }
  }

  lemma NarrowFieldReads(length: nat)
    requires 1 <= length <= 0x100
    ensures (length + 0xFF) % 0x100 == length - 1
  {
  }

  // ---------------------------------------------------------------------------------- the round trip

  /** The table of a file names items `0..placed` of a list, and ends there. */
  predicate Names(file: seq<Byte>, items: seq<Item>, placed: nat) {
    placed <= |items| && TABLE + 2 * placed + 2 <= |file| && U16At(file, TABLE + 2 * placed) == 0 &&
    forall k | 0 <= k < placed :: NamedAt(file, k, items[k])
  }

  predicate NamedAt(file: seq<Byte>, k: nat, item: Item)
    requires TABLE + 2 * k + 2 <= |file|
  {
    var offset := U16At(file, TABLE + 2 * k);
    offset > 0 && DecodeItem(file, offset) == Some(item)
  }

  lemma {:induction false} ReadsFrom(file: seq<Byte>, items: seq<Item>, placed: nat, i: nat)
    requires Names(file, items, placed) && i <= placed
    ensures DecodeFrom(file, i) == Some(items[i..placed])
    decreases placed - i
  {
    if i == placed {
    } else {
      ReadsFrom(file, items, placed, i + 1);
      assert NamedAt(file, i, items[i]);
      assert items[i..placed] == [items[i]] + items[i + 1..placed];
    }
  }

  lemma ImageNames(items: seq<Item>)
    requires forall k | 0 <= k < |items| :: WellFormed(items[k])
    ensures Names(Image(Encodings(items)), items, Placed(Encodings(items), FirstOffset(|items|)))
  {
    var chunks := Encodings(items);
    var placed, image := Placed(chunks, FirstOffset(|items|)), Image(chunks);
    ImageEnds(chunks, TABLE + 2 * placed);
    forall k | 0 <= k < placed ensures NamedAt(image, k, items[k]) {
      ImageIsFound(chunks, k);
      DecodesWritten(image, Offset(chunks, FirstOffset(|items|), k), items[k]);
    }
  }

  /** The file gives back the items that were placed, the longest run from the start that ends by 0x3FAE; and
      so the whole list exactly when the list fits. */
  lemma RoundTrip(items: seq<Item>)
    requires forall k | 0 <= k < |items| :: WellFormed(items[k])
    ensures DecodeFrom(Image(Encodings(items)), 0) == Some(items[..Placed(Encodings(items), FirstOffset(|items|))])
    ensures DecodeFrom(Image(Encodings(items)), 0) == Some(items) <==> Fits(Encodings(items))
  {
    var chunks := Encodings(items);
    var placed := Placed(chunks, FirstOffset(|items|));
    ImageNames(items);
    ReadsFrom(Image(chunks), items, placed, 0);
    PlacedAll(chunks, FirstOffset(|items|));
    assert |items[..placed]| == placed && items[0..placed] == items[..placed];
    assert placed == |items| ==> items[..placed] == items;
  }

  /** The items placed are the longest run that could be: with one more the run would pass 0x3FAE. */
  lemma {:induction false} PlacesAllItCan(chunks: seq<seq<Byte>>, cursor: nat, n: nat)
    requires n <= |chunks| && cursor <= LIMIT
    ensures n <= Placed(chunks, cursor) <==> cursor + Length(chunks[..n]) <= LIMIT
    decreases n
  {
    if n == 0 {
    } else {
      assert chunks[..n][1..] == chunks[1..][..n - 1];
      if cursor + |chunks[0]| <= LIMIT { PlacesAllItCan(chunks[1..], cursor + |chunks[0]|, n - 1); }
    }
  }
}
