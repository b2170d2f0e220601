/** Reading, setting and removing one key of one section in a list of lines. What a line says is given by
    `kind`; nothing here depends on how a line is spelled. */
module LineEdits {
  import opened Basics
  import opened TomlText

  type Reader = string -> Line

  // ---------------------------------------------------------------------------------------- reading

  /** Whether a scan that started inside (or outside) section `header` is inside it after `lines`. */
  function InsideAfter(kind: Reader, lines: seq<string>, header: string, inside: bool): bool {
    if lines == [] then inside
    else
      var line := kind(lines[0]);
      InsideAfter(kind, lines[1..], header, if line.Header? then line.text == header else inside)
  }

  predicate IsEntryFor(kind: Reader, line: string, key: string) {
    kind(line).Entry? && kind(line).key == key
  }

  predicate IsHeader(kind: Reader, line: string) {
    kind(line).Header?
  }

  /** The first line that sets `key` in any section called `header`, or the number of lines. */
  function FirstMatch(kind: Reader, lines: seq<string>, header: string, key: string, inside: bool): (r: nat)
    ensures r <= |lines|
    ensures r < |lines| ==> IsEntryFor(kind, lines[r], key) && InsideAfter(kind, lines[..r], header, inside)
  {
    if lines == [] then 0
    else if inside && IsEntryFor(kind, lines[0], key) then 0
    else
      var line := kind(lines[0]);
      var r := 1 + FirstMatch(kind, lines[1..], header, key, if line.Header? then line.text == header else inside);
      assert r < |lines| ==> lines[..r][1..] == lines[1..][..r - 1];
      r
  }

  function Lookup(kind: Reader, lines: seq<string>, header: string, key: string, inside: bool): Option<string> {
    var r := FirstMatch(kind, lines, header, key, inside);
    if r < |lines| then Some(kind(lines[r]).raw) else None
  }

  lemma {:induction false} MatchInAppend(kind: Reader, a: seq<string>, b: seq<string>, header: string, key: string,
                                         inside: bool)
    ensures InsideAfter(kind, a + b, header, inside) ==
            InsideAfter(kind, b, header, InsideAfter(kind, a, header, inside))
    ensures var r := FirstMatch(kind, a, header, key, inside);
      FirstMatch(kind, a + b, header, key, inside) ==
      if r < |a| then r else |a| + FirstMatch(kind, b, header, key, InsideAfter(kind, a, header, inside))
  {
    if a == [] {
      assert a + b == b;
    } else {
      var line := kind(a[0]);
      assert (a + b)[1..] == a[1..] + b;
      MatchInAppend(kind, a[1..], b, header, key, if line.Header? then line.text == header else inside);
    }
  }

  lemma LookupInAppend(kind: Reader, a: seq<string>, b: seq<string>, header: string, key: string, inside: bool)
    ensures Lookup(kind, a + b, header, key, inside) ==
      if Lookup(kind, a, header, key, inside).Some? then Lookup(kind, a, header, key, inside)
      else Lookup(kind, b, header, key, InsideAfter(kind, a, header, inside))
  {
    MatchInAppend(kind, a, b, header, key, inside);
    var r := FirstMatch(kind, a, header, key, inside);
    var q := FirstMatch(kind, b, header, key, InsideAfter(kind, a, header, inside));
    if r < |a| {
      assert (a + b)[r] == a[r];
    } else if q < |b| {
      assert (a + b)[|a| + q] == b[q];
    }
  }

  /** A place in the file is inside sections of one name only. */
  lemma {:induction false} InsideOneName(kind: Reader, lines: seq<string>, h1: string, in1: bool, h2: string, in2: bool)
    requires in1 && in2 ==> h1 == h2
    requires InsideAfter(kind, lines, h1, in1) && InsideAfter(kind, lines, h2, in2)
    ensures h1 == h2
  {
    if lines == [] {
    } else {
      var line := kind(lines[0]);
      InsideOneName(kind, lines[1..], h1, if line.Header? then line.text == h1 else in1,
                    h2, if line.Header? then line.text == h2 else in2);
    }
  }

  lemma {:induction false} OutsideAllAlong(kind: Reader, lines: seq<string>, header: string, key: string)
    requires forall i | 0 <= i < |lines| :: kind(lines[i]) != Header(header)
    ensures FirstMatch(kind, lines, header, key, false) == |lines| && !InsideAfter(kind, lines, header, false)
  {
    if lines == [] {
    } else {
      OutsideAllAlong(kind, lines[1..], header, key);
    }
  }

  lemma {:induction false} SameSectionAllAlong(kind: Reader, lines: seq<string>, header: string, key: string,
                                               inside: bool)
    requires forall i | 0 <= i < |lines| :: !IsHeader(kind, lines[i])
    requires forall i | 0 <= i < |lines| :: !IsEntryFor(kind, lines[i], key)
    ensures FirstMatch(kind, lines, header, key, inside) == |lines|
    ensures InsideAfter(kind, lines, header, inside) == inside
  {
    if lines == [] {
    } else {
      SameSectionAllAlong(kind, lines[1..], header, key, inside);
    }
  }

  // ---------------------------------------------------------------------------------------- setting

  datatype Wanted = AnyHeader | TheHeader(header: string) | TheKey(key: string)

  predicate Is(kind: Reader, wanted: Wanted, line: string) {
    match wanted
    case AnyHeader => IsHeader(kind, line)
    case TheHeader(header) => kind(line) == Header(header)
    case TheKey(key) => IsEntryFor(kind, line, key)
  }

  function First(kind: Reader, lines: seq<string>, start: nat, end: nat, wanted: Wanted): (r: nat)
    requires start <= end <= |lines|
    ensures start <= r <= end
    ensures r < end ==> Is(kind, wanted, lines[r])
    ensures forall i | start <= i < r :: !Is(kind, wanted, lines[i])
    decreases end - start
  {
    if start == end || Is(kind, wanted, lines[start]) then start else First(kind, lines, start + 1, end, wanted)
  }

  lemma {:induction false} FirstIs(kind: Reader, lines: seq<string>, start: nat, end: nat, wanted: Wanted, r: nat)
    requires start <= r <= end <= |lines|
    requires r < end ==> Is(kind, wanted, lines[r])
    requires forall i | start <= i < r :: !Is(kind, wanted, lines[i])
    ensures First(kind, lines, start, end, wanted) == r
  {
  }

  function SectionStart(kind: Reader, lines: seq<string>, header: string): nat {
    First(kind, lines, 0, |lines|, TheHeader(header))
  }

  /** The end of the first section called `header`: the next header of any name, or the end of the file. */
  function SectionEnd(kind: Reader, lines: seq<string>, header: string): nat
    requires SectionStart(kind, lines, header) < |lines|
  {
    First(kind, lines, SectionStart(kind, lines, header) + 1, |lines|, AnyHeader)
  }

  function KeyIndex(kind: Reader, lines: seq<string>, header: string, key: string): nat
    requires SectionStart(kind, lines, header) < |lines|
  {
    First(kind, lines, SectionStart(kind, lines, header) + 1, SectionEnd(kind, lines, header), TheKey(key))
  }

  /** Just after the section's last line that is not blank. */
  function InsertAt(lines: seq<string>, start: nat, end: nat): (r: nat)
    requires start < end <= |lines|
    ensures start < r <= end
  {
    if end > start + 1 && Trim(lines[end - 1]) == "" then InsertAt(lines, start, end - 1) else end
  }

  function SetValue(kind: Reader, lines: seq<string>, header: string, key: string, entry: string): seq<string> {
    var start := SectionStart(kind, lines, header);
    if start == |lines| then lines + Pad(lines) + [header, entry]
    else
      var end, index := SectionEnd(kind, lines, header), KeyIndex(kind, lines, header, key);
      if index < end then lines[index := entry]
      else
        var at := InsertAt(lines, start, end);
        lines[..at] + [entry] + lines[at..]
  }

  /** The blank line put before a new section, unless the file ends in one. */
  function Pad(lines: seq<string>): seq<string> {
    if |lines| > 0 && lines[|lines| - 1] != "" then [""] else []
  }

  // ------------------------------------------------------------------------ the laws of setting a key

  /** The header and the blank line are read as such. */
  predicate Readable(kind: Reader, header: string) {
    kind(header) == Header(header) && kind("") == Nothing
  }

  /** `before` ends in the first section called `header`, and nothing in that part of it sets `key`. */
  predicate UpToEntry(kind: Reader, before: seq<string>, start: nat, header: string, key: string) {
    start < |before| && kind(before[start]) == Header(header) &&
    (forall i | 0 <= i < start :: kind(before[i]) != Header(header)) &&
    (forall i | start < i < |before| :: !IsHeader(kind, before[i]) && !IsEntryFor(kind, before[i], key))
  }

  /** Between `before` and `after` a section ends: nothing but blank lines follows up to the next header, and the
      line before is not blank, unless it is the section's own header. */
  ghost predicate EndsSection(kind: Reader, before: seq<string>, after: seq<string>) {
    before != [] && (Trim(before[|before| - 1]) != "" || IsHeader(kind, before[|before| - 1])) &&
    exists n | 0 <= n <= |after| :: BlankUpTo(after, n) && (n < |after| ==> IsHeader(kind, after[n]))
  }

  ghost predicate BlankUpTo(lines: seq<string>, n: nat)
    requires n <= |lines|
  {
    forall i | 0 <= i < n :: Trim(lines[i]) == ""
  }

  datatype Change = Replaced(line: string) | Inserted | Appended

  /** Which of its three edits a set makes. */
  predicate Changes(kind: Reader, lines: seq<string>, header: string, key: string, change: Change) {
    var start := SectionStart(kind, lines, header);
    if start == |lines| then change.Appended?
    else if KeyIndex(kind, lines, header, key) < SectionEnd(kind, lines, header) then change.Replaced?
    else change.Inserted?
  }

  /** What a set does to the lines: one entry between what stays before it and what stays after it. */
  lemma SetShape(kind: Reader, lines: seq<string>, header: string, key: string)
    returns (before: seq<string>, after: seq<string>, change: Change, start: nat)
    requires Readable(kind, header)
    ensures forall entry :: SetsAround(kind, lines, header, key, entry, before, after)
    ensures UpToEntry(kind, before, start, header, key) && Changes(kind, lines, header, key, change)
    ensures match change
      case Replaced(line) => lines == before + [line] + after && IsEntryFor(kind, line, key)
      case Inserted => lines == before + after && EndsSection(kind, before, after)
      case Appended => before == lines + (Pad(lines) + [header]) && after == []
  {
    start := SectionStart(kind, lines, header);
    if start == |lines| {
      before, after, change := lines + (Pad(lines) + [header]), [], Appended;
      start := |before| - 1;
      UpToAppended(kind, lines, header, key);
      forall entry ensures SetsAround(kind, lines, header, key, entry, before, after) {
        assert lines + Pad(lines) + [header, entry] == before + [entry] + after;
      }
    } else {
      var end, index := SectionEnd(kind, lines, header), KeyIndex(kind, lines, header, key);
      if index < end {
        before, after, change := lines[..index], lines[index + 1..], Replaced(lines[index]);
        UpToIndex(kind, lines, header, key, index);
        forall entry ensures SetsAround(kind, lines, header, key, entry, before, after) {
          assert lines[index := entry] == before + [entry] + after;
        }
      } else {
        var at := InsertAt(lines, start, end);
        before, after, change := lines[..at], lines[at..], Inserted;
        UpToIndex(kind, lines, header, key, at);
        InsertedAtItsEnd(kind, lines, header, key);
      }
    }
  }

  lemma InsertedAtItsEnd(kind: Reader, lines: seq<string>, header: string, key: string)
    requires SectionStart(kind, lines, header) < |lines|
    ensures var start, end := SectionStart(kind, lines, header), SectionEnd(kind, lines, header);
      EndsSection(kind, lines[..InsertAt(lines, start, end)], lines[InsertAt(lines, start, end)..])
  {
    var start, end := SectionStart(kind, lines, header), SectionEnd(kind, lines, header);
    assert Is(kind, TheHeader(header), lines[start]);
    assert end < |lines| ==> Is(kind, AnyHeader, lines[end]);
    CutAtItsEnd(kind, lines, start, end);
  }

  lemma CutAtItsEnd(kind: Reader, lines: seq<string>, start: nat, end: nat)
    requires start < end <= |lines| && IsHeader(kind, lines[start]) && (end < |lines| ==> IsHeader(kind, lines[end]))
    ensures EndsSection(kind, lines[..InsertAt(lines, start, end)], lines[InsertAt(lines, start, end)..])
  {
    var at := InsertAt(lines, start, end);
    BlankFromThere(lines, start, end);
    assert BlankUpTo(lines[at..], end - at);
    assert end < |lines| ==> lines[at..][end - at] == lines[end];
  }

  lemma {:induction false} BlankFromThere(lines: seq<string>, start: nat, end: nat)
    requires start < end <= |lines|
    ensures InsertAt(lines, start, end) == start + 1 || Trim(lines[InsertAt(lines, start, end) - 1]) != ""
    ensures forall i | InsertAt(lines, start, end) <= i < end :: Trim(lines[i]) == ""
    decreases end
  {
    if end > start + 1 && Trim(lines[end - 1]) == "" { BlankFromThere(lines, start, end - 1); }
  }

  lemma UpToAppended(kind: Reader, lines: seq<string>, header: string, key: string)
    requires Readable(kind, header) && SectionStart(kind, lines, header) == |lines|
    ensures UpToEntry(kind, lines + (Pad(lines) + [header]), |lines + Pad(lines)|, header, key)
  {
    assert forall i | 0 <= i < |lines| :: !Is(kind, TheHeader(header), lines[i]);
  }

  predicate SetsAround(kind: Reader, lines: seq<string>, header: string, key: string, entry: string,
                       before: seq<string>, after: seq<string>) {
    SetValue(kind, lines, header, key, entry) == before + [entry] + after
  }

  lemma UpToIndex(kind: Reader, lines: seq<string>, header: string, key: string, index: nat)
    requires SectionStart(kind, lines, header) < |lines|
    requires SectionStart(kind, lines, header) < index <= KeyIndex(kind, lines, header, key)
    ensures UpToEntry(kind, lines[..index], SectionStart(kind, lines, header), header, key)
  {
    var start := SectionStart(kind, lines, header);
    assert Is(kind, TheHeader(header), lines[start]);
    assert forall i | 0 <= i < start :: !Is(kind, TheHeader(header), lines[i]);
    assert forall i | start < i < index :: !Is(kind, AnyHeader, lines[i]) && !Is(kind, TheKey(key), lines[i]);
  }

  lemma EntryIsFirst(kind: Reader, before: seq<string>, start: nat, header: string, key: string)
    requires UpToEntry(kind, before, start, header, key)
    ensures FirstMatch(kind, before, header, key, false) == |before| && InsideAfter(kind, before, header, false)
  {
    var a, b, c := before[..start], [before[start]], before[start + 1..];
    assert before == a + (b + c);
    OutsideAllAlong(kind, a, header, key);
    SameSectionAllAlong(kind, c, header, key, true);
    MatchInAppend(kind, b, c, header, key, false);
    MatchInAppend(kind, a, b + c, header, key, false);
  }

  lemma EntryIsMatched(kind: Reader, before: seq<string>, entry: string, after: seq<string>, start: nat,
                       header: string, key: string)
    requires UpToEntry(kind, before, start, header, key) && IsEntryFor(kind, entry, key)
    ensures FirstMatch(kind, before + [entry] + after, header, key, false) == |before|
  {
    EntryIsFirst(kind, before, start, header, key);
    assert ([entry] + after)[0] == entry;
    MatchInAppend(kind, before, [entry] + after, header, key, false);
    assert before + ([entry] + after) == before + [entry] + after;
  }

  /** The entry just set is the first of its key in its section, duplicate sections included. */
  lemma SetIsFound(kind: Reader, lines: seq<string>, header: string, key: string, entry: string)
    requires Readable(kind, header) && IsEntryFor(kind, entry, key)
    ensures Lookup(kind, SetValue(kind, lines, header, key, entry), header, key, false) == Some(kind(entry).raw)
  {
    var before, after, _, start := SetShape(kind, lines, header, key);
    assert SetsAround(kind, lines, header, key, entry, before, after);
    EntryIsMatched(kind, before, entry, after, start, header, key);
  }

  lemma OtherEntryIsInvisible(kind: Reader, before: seq<string>, entry: string, after: seq<string>,
                              header: string, key: string, header2: string, key2: string)
    requires InsideAfter(kind, before, header, false) && IsEntryFor(kind, entry, key)
    requires header2 != header || key2 != key
    ensures Lookup(kind, before + [entry] + after, header2, key2, false) ==
            Lookup(kind, before + after, header2, key2, false)
  {
    var inside := InsideAfter(kind, before, header2, false);
    if inside { InsideOneName(kind, before, header, false, header2, false); }
    LookupInAppend(kind, before, after, header2, key2, false);
    assert before + [entry] + after == before + ([entry] + after);
    LookupInAppend(kind, before, [entry] + after, header2, key2, false);
    LookupInAppend(kind, [entry], after, header2, key2, inside);
  }

  /** Every other key of every section reads as before. */
  lemma SetKeepsOthers(kind: Reader, lines: seq<string>, header: string, key: string, entry: string,
                       header2: string, key2: string)
    requires Readable(kind, header) && IsEntryFor(kind, entry, key)
    requires header2 != header || key2 != key
    ensures Lookup(kind, SetValue(kind, lines, header, key, entry), header2, key2, false) ==
            Lookup(kind, lines, header2, key2, false)
  {
    var before, after, change, start := SetShape(kind, lines, header, key);
    assert SetsAround(kind, lines, header, key, entry, before, after);
    EntryIsFirst(kind, before, start, header, key);
    OtherEntryIsInvisible(kind, before, entry, after, header, key, header2, key2);
    match change {
      case Replaced(line) => OtherEntryIsInvisible(kind, before, line, after, header, key, header2, key2);
      case Inserted =>
      case Appended =>
        assert before + after == before;
        HeadersHoldNothing(kind, Pad(lines) + [header], header2, key2, InsideAfter(kind, lines, header2, false));
        LookupInAppend(kind, lines, Pad(lines) + [header], header2, key2, false);
    }
  }

  lemma {:induction false} HeadersHoldNothing(kind: Reader, lines: seq<string>, header: string, key: string,
                                              inside: bool)
    requires forall i | 0 <= i < |lines| :: !kind(lines[i]).Entry?
    ensures Lookup(kind, lines, header, key, inside) == None
  {
    var r := FirstMatch(kind, lines, header, key, inside);
    assert r == |lines| || IsEntryFor(kind, lines[r], key);
  }

  /** All other lines survive, in order: the entry takes the place of one line that set the key, or is put at the
      end of its section before the blank lines there, or, if no line is the header, a section holding just the
      entry is put at the end, after a blank line. */
  lemma SetKeepsOtherLines(kind: Reader, lines: seq<string>, header: string, key: string, entry: string)
    returns (before: seq<string>, dropped: seq<string>, after: seq<string>, added: seq<string>)
    requires Readable(kind, header)
    ensures lines == before + dropped + after
    ensures SetValue(kind, lines, header, key, entry) == before + added + [entry] + after
    ensures |dropped| <= 1 && (dropped != [] ==> IsEntryFor(kind, dropped[0], key))
    ensures added == [] && dropped == [] ==> EndsSection(kind, before, after)
    ensures added != [] <==> forall i | 0 <= i < |lines| :: kind(lines[i]) != Header(header)
    ensures added != [] ==>
      before == lines && added == if lines == [] || lines[|lines| - 1] == "" then [header] else ["", header]
    ensures exists start :: UpToEntry(kind, before + added, start, header, key)
  {
    var change: Change, start: nat;
    before, after, change, start := SetShape(kind, lines, header, key);
    assert SetsAround(kind, lines, header, key, entry, before, after);
    match change {
      case Replaced(line) =>
        dropped, added := [line], [];
        assert before + added == before;
      case Inserted =>
        dropped, added := [], [];
        assert before + added == before && before + dropped == before;
      case Appended =>
        before, dropped, added := lines, [], Pad(lines) + [header];
        assert lines == lines + [] + [];
    }
  }

  /** The last set decides: setting twice is setting once, and in particular a set is idempotent. */
  lemma LastSetWins(kind: Reader, lines: seq<string>, header: string, key: string, first: string, last: string)
    requires Readable(kind, header) && IsEntryFor(kind, first, key)
    ensures SetValue(kind, SetValue(kind, lines, header, key, first), header, key, last) ==
            SetValue(kind, lines, header, key, last)
  {
    var before, after, _, start := SetShape(kind, lines, header, key);
    assert SetsAround(kind, lines, header, key, first, before, after);
    assert SetsAround(kind, lines, header, key, last, before, after);
    SetReplaces(kind, before, first, after, start, header, key, last);
  }

  lemma SetReplaces(kind: Reader, before: seq<string>, first: string, after: seq<string>, start: nat,
                    header: string, key: string, last: string)
    requires UpToEntry(kind, before, start, header, key) && IsEntryFor(kind, first, key)
    ensures SetValue(kind, before + [first] + after, header, key, last) == before + [last] + after
  {
    var lines := before + [first] + after;
    FirstIs(kind, lines, 0, |lines|, TheHeader(header), start);
    var end := SectionEnd(kind, lines, header);
    assert end == |lines| || Is(kind, AnyHeader, lines[end]);
    assert forall i | start < i <= |before| :: !IsHeader(kind, lines[i]);
    assert end > |before|;
    FirstIs(kind, lines, start + 1, end, TheKey(key), |before|);
  }

  // --------------------------------------------------------------------------------------- removing

  /** Removes the first line that sets `key`, if `owns` accepts what it holds. */
  function Removed(kind: Reader, lines: seq<string>, header: string, key: string, owns: string -> bool): seq<string> {
    var r := FirstMatch(kind, lines, header, key, false);
    if r < |lines| && owns(kind(lines[r]).raw) then lines[..r] + lines[r + 1..] else lines
  }

  /** Removing the key just set gives the lines back exactly when its section was there without it. */
  lemma RemoveUndoesSet(kind: Reader, lines: seq<string>, header: string, key: string, entry: string,
                        owns: string -> bool)
    requires Readable(kind, header) && IsEntryFor(kind, entry, key) && owns(kind(entry).raw)
    ensures Removed(kind, SetValue(kind, lines, header, key, entry), header, key, owns) == lines <==>
            Changes(kind, lines, header, key, Inserted)
  {
    var before, after, change, start := SetShape(kind, lines, header, key);
    assert SetsAround(kind, lines, header, key, entry, before, after);
    RemovedAtEntry(kind, before, entry, after, start, header, key, owns);
    match change {
      case Replaced(line) => assert |before + after| < |lines|;
      case Inserted =>
      case Appended => assert |before + after| > |lines|;
    }
  }

  lemma RemovedAtEntry(kind: Reader, before: seq<string>, entry: string, after: seq<string>, start: nat,
                       header: string, key: string, owns: string -> bool)
    requires UpToEntry(kind, before, start, header, key) && IsEntryFor(kind, entry, key) && owns(kind(entry).raw)
    ensures Removed(kind, before + [entry] + after, header, key, owns) == before + after
  {
    EntryIsMatched(kind, before, entry, after, start, header, key);
    var edited := before + [entry] + after;
    assert edited[..|before|] == before && edited[|before| + 1..] == after;
  }

  /** Removing a key leaves every other key of every section as it was. */
  lemma RemoveKeepsOthers(kind: Reader, lines: seq<string>, header: string, key: string, owns: string -> bool,
                          header2: string, key2: string)
    requires header2 != header || key2 != key
    ensures Lookup(kind, Removed(kind, lines, header, key, owns), header2, key2, false) ==
            Lookup(kind, lines, header2, key2, false)
  {
    var r := FirstMatch(kind, lines, header, key, false);
    if r < |lines| {
      OtherEntryIsInvisible(kind, lines[..r], lines[r], lines[r + 1..], header, key, header2, key2);
      assert lines == lines[..r] + [lines[r]] + lines[r + 1..];
    }
  }
}
