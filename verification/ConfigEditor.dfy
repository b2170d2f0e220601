/** The editor of `Config.toml`: its loops over the lines, and the laws of a whole file. */
module ConfigEditor {
  import opened Basics
  import opened FileTree
  import opened TomlText
  import opened LineEdits
  import PortablePaths

  function Bracketed(section: string): string {
    "[" + section + "]"
  }

  /** The value of a key as the reading loop finds it. */
  function RawValue(lines: seq<string>, section: string, key: string): Option<string> {
    Lookup(Classify, lines, Bracketed(section), key, false)
  }

  function SetSection(lines: seq<string>, section: string, key: string, value: string): seq<string> {
    SetValue(Classify, lines, Bracketed(section), key, EntryLine(key, value))
  }

  function Holds(owns: string -> bool): string -> bool {
    (raw: string) => var configured := Unquoted(raw); configured.Some? && owns(configured.value)
  }

  /** `owns` decides whether a configured path is the one to forget. */
  function Forget(lines: seq<string>, section: string, key: string, owns: string -> bool): seq<string> {
    Removed(Classify, lines, Bracketed(section), key, Holds(owns))
  }

  // ------------------------------------------------------------------------------------- the loops

  /** What the loops see of one line. */
  method ReadLine(line: string) returns (trimmed: string)
    ensures trimmed == Stripped(line)
  {
    var stripped := RemoveComment(line);
    return Trim(stripped);
  }

  /** Whether a line that is not a header sets the key. */
  predicate Sets(trimmed: string, key: string) {
    var equals := IndexOf(trimmed, '=');
    equals < |trimmed| && Trim(trimmed[..equals]) == key
  }

  lemma ReadAsSection(line: string)
    ensures IsHeader(Classify, line) <==> IsSection(Stripped(line))
    ensures IsHeader(Classify, line) ==> Classify(line) == Header(Stripped(line))
  {
  }

  lemma ReadAsEntry(line: string, key: string)
    requires !IsSection(Stripped(line))
    ensures IsEntryFor(Classify, line, key) <==> Sets(Stripped(line), key)
    ensures Sets(Stripped(line), key) ==>
              Classify(line).raw == Trim(Stripped(line)[IndexOf(Stripped(line), '=') + 1..])
  {
  }

  /** The loop of `GetRawValue`, and the first half of the loop of `RemovePathIfOwned`. */
  method FindValue(lines: seq<string>, section: string, key: string) returns (found: nat, raw: string)
    ensures found == FirstMatch(Classify, lines, Bracketed(section), key, false)
    ensures found < |lines| ==> raw == Classify(lines[found]).raw
  {
    var header, inSection := Bracketed(section), false;
    raw := "";
    for index := 0 to |lines|
      invariant FirstMatch(Classify, lines, header, key, false) ==
                index + FirstMatch(Classify, lines[index..], header, key, inSection)
    {
      assert lines[index..][1..] == lines[index + 1..];
      var trimmed := ReadLine(lines[index]);
      ReadAsSection(lines[index]);
      if IsSection(trimmed) {
        inSection := trimmed == header;
        continue;
      }
      ReadAsEntry(lines[index], key);
      if !inSection || |trimmed| == 0 { continue; }
      if !Sets(trimmed, key) { continue; }
      raw := Trim(trimmed[IndexOf(trimmed, '=') + 1..]);
      assert raw == Classify(lines[index]).raw;
      return index, raw;
    }
    return |lines|, "";
  }

  class LineList {
    var lines: seq<string>

    constructor (initial: seq<string>)
      ensures lines == initial
    {
      lines := initial;
    }

    /** Just after the last line of the section that is not blank. */
    method FindInsertAt(sectionStart: nat, sectionEnd: nat) returns (insertAt: nat)
      requires sectionStart < sectionEnd <= |lines|
      ensures insertAt == InsertAt(lines, sectionStart, sectionEnd)
    {
      insertAt := sectionEnd;
      while insertAt > sectionStart + 1 && |Trim(lines[insertAt - 1])| == 0
        invariant sectionStart < insertAt <= sectionEnd
        invariant InsertAt(lines, sectionStart, sectionEnd) == InsertAt(lines, sectionStart, insertAt)
      {
        insertAt := insertAt - 1;
      }
    }

    /** The scan for the section and its end; `sectionStart` is negative when there is none. */
    method FindSection(header: string) returns (sectionStart: int, sectionEnd: nat)
      ensures sectionStart < 0 ==> SectionStart(Classify, lines, header) == |lines|
      ensures sectionStart >= 0 ==>
                sectionStart == SectionStart(Classify, lines, header) < |lines| &&
                sectionEnd == SectionEnd(Classify, lines, header)
    {
      sectionStart, sectionEnd := -1, |lines|;
      for index := 0 to |lines|
        invariant sectionEnd == |lines|
        invariant sectionStart < 0 ==>
                    SectionStart(Classify, lines, header) == First(Classify, lines, index, |lines|, TheHeader(header))
        invariant sectionStart >= 0 ==>
                    sectionStart == SectionStart(Classify, lines, header) < index &&
                    SectionEnd(Classify, lines, header) == First(Classify, lines, index, |lines|, AnyHeader)
      {
        var trimmed := ReadLine(lines[index]);
        ReadAsSection(lines[index]);
        if !IsSection(trimmed) { continue; }
        if sectionStart >= 0 {
          return sectionStart, index;
        }
        if trimmed == header { sectionStart := index; }
      }
    }

    /** The section's line for the key, or its end. */
    method FindKey(header: string, key: string, sectionStart: nat, sectionEnd: nat) returns (index: nat)
      requires sectionStart == SectionStart(Classify, lines, header) < |lines|
      requires sectionEnd == SectionEnd(Classify, lines, header)
      ensures index == KeyIndex(Classify, lines, header, key) <= sectionEnd
    {
      for index := sectionStart + 1 to sectionEnd
        invariant KeyIndex(Classify, lines, header, key) == First(Classify, lines, index, sectionEnd, TheKey(key))
      {
        var trimmed := ReadLine(lines[index]);
        assert !Is(Classify, AnyHeader, lines[index]);
        ReadAsSection(lines[index]);
        ReadAsEntry(lines[index], key);
        if |trimmed| == 0 { continue; }
        if Sets(trimmed, key) { return index; }
      }
      return sectionEnd;
    }

    method AppendSection(header: string, entry: string)
      modifies this
      ensures lines == old(lines) + Pad(old(lines)) + [header, entry]
    {
      if |lines| > 0 && |lines[|lines| - 1]| != 0 { lines := lines + [""]; }
      lines := lines + [header];
      lines := lines + [entry];
    }

    method SetSectionValue(section: string, key: string, value: string)
      modifies this
      ensures lines == SetSection(old(lines), section, key, value)
    {
      var header, entry := Bracketed(section), EntryLine(key, value);
      var sectionStart, sectionEnd := FindSection(header);
      if sectionStart < 0 {
        AppendSection(header, entry);
        return;
      }
      var index := FindKey(header, key, sectionStart, sectionEnd);
      if index < sectionEnd {
        lines := lines[index := entry];
        return;
      }
      var insertAt := FindInsertAt(sectionStart, sectionEnd);
      lines := lines[..insertAt] + [entry] + lines[insertAt..];
    }
  }

  // -------------------------------------------------------------------------- the laws, for these lines

  /** The section's header is read back as it is written; that of `paths` is. */
  predicate HeaderReadsBack(section: string) {
    Stripped(Bracketed(section)) == Bracketed(section)
  }

  lemma ReadableSection(section: string)
    requires HeaderReadsBack(section)
    ensures Readable(Classify, Bracketed(section))
  {
  }

  lemma WrittenEntryIsFor(key: string, value: string)
    requires PlainKey(key)
    ensures IsEntryFor(Classify, EntryLine(key, QuoteToml(value)), key)
    ensures Classify(EntryLine(key, QuoteToml(value))).raw == QuoteToml(value)
  {
    WrittenEntryReadsBack(key, value);
  }

  lemma UnreadableHeaderIsNeverFound(lines: seq<string>, section: string, key: string)
    requires !HeaderReadsBack(section)
    ensures RawValue(lines, section, key) == None
  {
    forall i | 0 <= i < |lines| ensures Classify(lines[i]) != Header(Bracketed(section)) {
      StrippedTwice(lines[i]);
    }
    OutsideAllAlong(Classify, lines, Bracketed(section), key);
  }

  /** After a set, reading and unquoting the key gives exactly the value, whatever quotes, backslashes or `#`
      it holds and whatever the lines are: if and only if the section's header reads back. */
  lemma SetThenGet(lines: seq<string>, section: string, key: string, value: string)
    requires PlainKey(key)
    ensures var raw := RawValue(SetSection(lines, section, key, QuoteToml(value)), section, key);
      (raw.Some? && Unquoted(raw.value) == Some(value)) <==> HeaderReadsBack(section)
  {
    if HeaderReadsBack(section) {
      ReadableSection(section);
      WrittenEntryIsFor(key, value);
      SetIsFound(Classify, lines, Bracketed(section), key, EntryLine(key, QuoteToml(value)));
      UnquoteUndoesQuote(value);
    } else {
      UnreadableHeaderIsNeverFound(SetSection(lines, section, key, QuoteToml(value)), section, key);
    }
  }

  /** A set changes what no other key of this section, and no key of another section, reads as. */
  lemma SetThenGetOther(lines: seq<string>, section: string, key: string, value: string, section2: string, key2: string)
    requires HeaderReadsBack(section) && PlainKey(key)
    requires section2 != section || key2 != key
    ensures RawValue(SetSection(lines, section, key, QuoteToml(value)), section2, key2) ==
            RawValue(lines, section2, key2)
  {
    ReadableSection(section);
    WrittenEntryIsFor(key, value);
    assert Bracketed(section)[1..|section| + 1] == section && Bracketed(section2)[1..|section2| + 1] == section2;
    SetKeepsOthers(Classify, lines, Bracketed(section), key, EntryLine(key, QuoteToml(value)),
                   Bracketed(section2), key2);
  }

  lemma SetTwice(lines: seq<string>, section: string, key: string, value1: string, value2: string)
    requires HeaderReadsBack(section) && PlainKey(key)
    ensures SetSection(SetSection(lines, section, key, QuoteToml(value1)), section, key, QuoteToml(value2)) ==
            SetSection(lines, section, key, QuoteToml(value2))
  {
    ReadableSection(section);
    WrittenEntryIsFor(key, value1);
    LastSetWins(Classify, lines, Bracketed(section), key, EntryLine(key, QuoteToml(value1)),
                EntryLine(key, QuoteToml(value2)));
  }

  /** Forgetting a path just set gives the lines back, if and only if the first section of the name was there
      and did not set the key. */
  lemma ForgetUndoesSet(lines: seq<string>, section: string, key: string, value: string, owns: string -> bool)
    requires HeaderReadsBack(section) && PlainKey(key) && owns(value)
    ensures Forget(SetSection(lines, section, key, QuoteToml(value)), section, key, owns) == lines <==>
            Changes(Classify, lines, Bracketed(section), key, Inserted)
  {
    ReadableSection(section);
    WrittenEntryIsFor(key, value);
    UnquoteUndoesQuote(value);
    RemoveUndoesSet(Classify, lines, Bracketed(section), key, EntryLine(key, QuoteToml(value)), Holds(owns));
  }

  // ------------------------------------------------------------------------------------ the whole file

  predicate IsBreak(c: char) {
    c == '\n' || c == '\r'
  }

  predicate OneLine(s: string) {
    forall i | 0 <= i < |s| :: !IsBreak(s[i])
  }

  predicate OneLiners(lines: seq<string>) {
    forall i | 0 <= i < |lines| :: OneLine(lines[i])
  }

  lemma OneLinersAppend(a: seq<string>, b: seq<string>)
    ensures OneLiners(a + b) <==> OneLiners(a) && OneLiners(b)
  {
    assert forall i | 0 <= i < |a| :: (a + b)[i] == a[i];
    assert forall i | 0 <= i < |b| :: (a + b)[|a| + i] == b[i];
  }

  function BreakAt(text: string): (r: nat)
    ensures r <= |text|
    ensures OneLine(text[..r])
    ensures r < |text| ==> IsBreak(text[r])
  {
    if text == "" || IsBreak(text[0]) then 0
    else
      var r := 1 + BreakAt(text[1..]);
      assert text[..r] == [text[0]] + text[1..][..r - 1];
      r
  }

  /** `File.ReadAllLines`: a line ends at "\n", "\r" or "\r\n"; a final break starts no further line. */
  function ReadLines(text: string): (lines: seq<string>)
    ensures OneLiners(lines)
  {
    if text == "" then []
    else
      var end := BreakAt(text);
      if end == |text| then [text]
      else
        var width := if text[end] == '\r' && end + 1 < |text| && text[end + 1] == '\n' then 2 else 1;
        [text[..end]] + ReadLines(text[end + width..])
  }

  datatype NewLine = Unix | Windows

  function Break(newLine: NewLine): string {
    if newLine.Unix? then "\n" else "\r\n"
  }

  /** The lines joined by the platform's line break, and one more break. */
  function WriteLines(lines: seq<string>, newLine: NewLine): string {
    if |lines| <= 1 then (if lines == [] then "" else lines[0]) + Break(newLine)
    else lines[0] + Break(newLine) + WriteLines(lines[1..], newLine)
  }

  lemma {:induction false} BreakAtIs(text: string, n: nat)
    requires n < |text| && IsBreak(text[n]) && OneLine(text[..n])
    ensures BreakAt(text) == n
  {
    if n == 0 {
    } else {
      assert text[..n][0] == text[0] && text[1..][..n - 1] == text[..n][1..];
      BreakAtIs(text[1..], n - 1);
    }
  }

  lemma BreakIsFirst(line: string, newLine: NewLine, rest: string)
    requires OneLine(line)
    ensures BreakAt(line + Break(newLine) + rest) == |line|
  {
    var text := line + Break(newLine) + rest;
    assert text[..|line|] == line;
    BreakAtIs(text, |line|);
  }

  lemma ReadsFirstLine(line: string, newLine: NewLine, rest: string)
    requires OneLine(line)
    ensures ReadLines(line + Break(newLine) + rest) == [line] + ReadLines(rest)
  {
    var text, nl := line + Break(newLine) + rest, Break(newLine);
    BreakIsFirst(line, newLine, rest);
    assert text[..|line|] == line;
    assert text[|line|] == nl[0];
    if newLine.Windows? {
      assert text[|line| + 1] == '\n';
      assert text[|line| + 2..] == rest;
    } else {
      assert text[|line| + 1..] == rest;
    }
  }

  /** Lines end at "\n", "\r\n" or a lone "\r", whichever each of them ends with, and at the end of the text;
      these equations read any text. */
  lemma LinesEndAtBreaks(line: string, rest: string)
    requires OneLine(line)
    ensures ReadLines(line + "\n" + rest) == [line] + ReadLines(rest)
    ensures ReadLines(line + "\r\n" + rest) == [line] + ReadLines(rest)
    ensures rest == "" || rest[0] != '\n' ==> ReadLines(line + "\r" + rest) == [line] + ReadLines(rest)
    ensures ReadLines(line) == if line == "" then [] else [line]
  {
    ReadsFirstLine(line, Unix, rest);
    ReadsFirstLine(line, Windows, rest);
    if rest == "" || rest[0] != '\n' { ReturnEndsLine(line, rest); }
    if line != "" { assert BreakAt(line) == |line|; }
  }

  lemma ReturnEndsLine(line: string, rest: string)
    requires OneLine(line) && (rest == "" || rest[0] != '\n')
    ensures ReadLines(line + "\r" + rest) == [line] + ReadLines(rest)
  {
    var text := line + "\r" + rest;
    assert text[..|line|] == line && text[|line|] == '\r' && text[|line| + 1..] == rest;
    BreakAtIs(text, |line|);
    assert rest != "" ==> text[|line| + 1] == rest[0];
  }

  /** A file written from lines is read back as those lines exactly when there are any and none of them holds
      a line break. */
  lemma {:induction false} WrittenLinesReadBack(lines: seq<string>, newLine: NewLine)
    ensures ReadLines(WriteLines(lines, newLine)) == lines <==>
            lines != [] && OneLiners(lines)
  {
    if lines != [] && OneLiners(lines) {
      WrittenOneLinersReadBack(lines, newLine);
    } else if lines == [] {
      assert "" + Break(newLine) + "" == WriteLines([], newLine);
      ReadsFirstLine("", newLine, "");
    }
  }

  function WriteRest(lines: seq<string>, newLine: NewLine): string
    requires lines != []
  {
    if |lines| == 1 then "" else WriteLines(lines[1..], newLine)
  }

  lemma WritesFirstLine(lines: seq<string>, newLine: NewLine)
    requires lines != []
    ensures WriteLines(lines, newLine) == lines[0] + Break(newLine) + WriteRest(lines, newLine)
  {
    if |lines| == 1 { assert lines[0] + Break(newLine) + "" == lines[0] + Break(newLine); }
  }

  lemma {:induction false} WrittenOneLinersReadBack(lines: seq<string>, newLine: NewLine)
    requires lines != [] && OneLiners(lines)
    ensures ReadLines(WriteLines(lines, newLine)) == lines
  {
    var first, rest := lines[0], WriteRest(lines, newLine);
    assert OneLine(first);
    WritesFirstLine(lines, newLine);
    ReadsFirstLine(first, newLine, rest);
    if |lines| == 1 {
      assert ReadLines(rest) == [] == lines[1..];
    } else {
      assert OneLiners(lines[1..]);
      WrittenOneLinersReadBack(lines[1..], newLine);
    }
    assert lines == [first] + lines[1..];
  }

  const DEFAULT_LINES: seq<string> := ["# WiiCompiled user configuration", "", "[paths]"]

  function LinesOrDefault(contents: Option<string>): seq<string> {
    match contents
    case None => DEFAULT_LINES
    case Some(text) => ReadLines(text)
  }

  function PathIn(contents: Option<string>, key: string): Option<string> {
    match contents
    case None => None
    case Some(text) =>
      match RawValue(ReadLines(text), "paths", key)
      case None => None
      case Some(raw) => Unquoted(raw)
  }

  /** A stored path as the runtime uses it: relative ones count from the configuration's own directory. */
  function ResolvedPathIn(contents: Option<string>, directory: Path, key: string): Option<Path>
    requires directory != []
  {
    var stored := PathIn(contents, key);
    if stored.None? || Trim(stored.value) == "" then None
    else Some(PortablePaths.ResolveAgainst(directory, stored.value))
  }

  /** The file on disk; its contents are `None` while it does not exist. */
  class ConfigFile {
    var contents: Option<string>
    const directory: Path
    const newLine: NewLine

    constructor (initial: Option<string>, directory: Path, newLine: NewLine)
      ensures contents == initial && this.directory == directory && this.newLine == newLine
    {
      contents, this.directory, this.newLine := initial, directory, newLine;
    }

    /** `marked` holds the directories with a portable-root marker. */
    method SetPath(key: string, path: Path, marked: set<Path>)
      requires path != []
      modifies this
      ensures var text := PortablePaths.FormatPathValue(marked, directory, path);
        contents ==
          Some(WriteLines(SetSection(LinesOrDefault(old(contents)), "paths", key, QuoteToml(text)), newLine))
    {
      var list := new LineList(LinesOrDefault(contents));
      list.SetSectionValue("paths", key, QuoteToml(PortablePaths.FormatPathValue(marked, directory, path)));
      contents := Some(WriteLines(list.lines, newLine));
    }

    method GetPath(key: string) returns (value: Option<string>)
      ensures value == PathIn(contents, key)
    {
      if contents.None? { return None; }
      var lines := ReadLines(contents.value);
      var found, raw := FindValue(lines, "paths", key);
      if found == |lines| { return None; }
      var ok, result := TryUnquoteToml(raw);
      return if ok then Some(result) else None;
    }

    method GetResolvedPath(key: string) returns (path: Option<Path>)
      requires directory != []
      ensures path == ResolvedPathIn(contents, directory, key)
    {
      var stored := GetPath(key);
      if stored.None? || Trim(stored.value) == "" { return None; }
      return Some(PortablePaths.ResolveAgainst(directory, stored.value));
    }

    /** The root that has been set is the one found from now on. */
    method SetRetroRewindRoot(path: Path, marked: set<Path>)
      requires PortablePaths.Absolute(directory) && PortablePaths.Absolute(path)
      modifies this
      ensures var text := PortablePaths.FormatPathValue(marked, directory, path);
        contents ==
          Some(WriteLines(SetSection(LinesOrDefault(old(contents)), "paths", ROOT_KEY, QuoteToml(text)), newLine))
      ensures Storable(marked, directory, path) ==> ResolvedPathIn(contents, directory, ROOT_KEY) == Some(path)
    {
      ghost var before := contents;
      SetPath(ROOT_KEY, path, marked);
      if Storable(marked, directory, path) {
        RootKeyIsPlain();
        PathSurvivesTheFile(before, marked, directory, ROOT_KEY, path, newLine);
      }
    }

    method GetRetroRewindRoot() returns (path: Option<Path>)
      requires directory != []
      ensures path == ResolvedPathIn(contents, directory, ROOT_KEY)
    {
      path := GetResolvedPath(ROOT_KEY);
    }

    /** Forgets the key's first path if it resolves to the expected one. */
    method RemovePathIfOwned(key: string, expected: Path)
      requires directory != []
      modifies this
      ensures contents ==
        match old(contents)
        case None => None
        case Some(text) =>
          var kept := Forget(ReadLines(text), "paths", key, ResolvesTo(directory, expected));
          if kept == ReadLines(text) then Some(text) else Some(WriteLines(kept, newLine))
    {
      if contents.None? { return; }
      var lines := ReadLines(contents.value);
      var found, raw := FindValue(lines, "paths", key);
      if found == |lines| { return; }
      var ok, configured := TryUnquoteToml(raw);
      if !ok || PortablePaths.ResolveAgainst(directory, configured) != expected { return; }
      var kept := lines[..found] + lines[found + 1..];
      assert |kept| < |lines|;
      contents := Some(WriteLines(kept, newLine));
    }
  }

  const ROOT_KEY: string := "retro_rewind_root"

  /** The path's text holds a name and no line break. */
  predicate Storable(marked: set<Path>, directory: Path, path: Path)
    requires path != []
  {
    var text := PortablePaths.FormatPathValue(marked, directory, path);
    OneLine(text) && Trim(text) != ""
  }

  lemma RootKeyIsPlain()
    ensures PlainKey(ROOT_KEY) && OneLine(ROOT_KEY)
  {
    assert ROOT_KEY[0] == 'r' && ROOT_KEY[|ROOT_KEY| - 1] == 't';
    assert forall i | 0 <= i < |ROOT_KEY| :: 'a' <= ROOT_KEY[i] <= 'z' || ROOT_KEY[i] == '_';
  }

  function ResolvesTo(directory: Path, expected: Path): string -> bool
    requires directory != []
  {
    (text: string) => PortablePaths.ResolveAgainst(directory, text) == expected
  }

  // ------------------------------------------------------------------ what survives a round through the file

  lemma {:induction false} UnescapedIsOneLine(s: string)
    requires OneLine(s)
    ensures OneLine(Unescape(s))
  {
    if s == "" {
    } else {
      if s[0] == '\\' && |s| > 1 { UnescapedIsOneLine(s[2..]); } else { UnescapedIsOneLine(s[1..]); }
    }
  }

  lemma TrimmedIsOneLine(s: string)
    requires OneLine(s)
    ensures OneLine(Trim(s))
  {
    TrimStartIsSuffix(s);
    TrimEndIsPrefix(TrimStart(s));
  }

  lemma RawIsOneLine(line: string)
    requires OneLine(line) && Classify(line).Entry?
    ensures OneLine(Classify(line).raw)
  {
    TrimmedIsOneLine(WithoutComment(line));
    var trimmed := Stripped(line);
    TrimmedIsOneLine(trimmed[IndexOf(trimmed, '=') + 1..]);
  }

  lemma UnquotedIsOneLine(raw: string)
    requires OneLine(raw) && Unquoted(raw).Some?
    ensures OneLine(Unquoted(raw).value)
  {
    UnescapedIsOneLine(raw[1..|raw| - 1]);
  }

  lemma {:induction false} EscapedIsOneLine(value: string)
    requires OneLine(value)
    ensures OneLine(Escape(value))
  {
    if value == "" {
    } else {
      EscapedIsOneLine(value[1..]);
    }
  }

  lemma EntryIsOneLine(key: string, value: string)
    requires OneLine(key) && OneLine(value)
    ensures OneLine(EntryLine(key, QuoteToml(value)))
  {
    TwoPassesAreOne(value);
    EscapedIsOneLine(value);
  }

  /** A name without quotes, `#` and line breaks makes a header that reads back. */
  lemma PlainNameReadsBack(section: string)
    requires NoQuoteOrComment(section) && OneLine(section)
    ensures HeaderReadsBack(section) && OneLine(Bracketed(section))
  {
    var header := Bracketed(section);
    assert NoQuoteOrComment(header);
    PlainHasNoComment(header);
    assert header[0] == '[' && header[|header| - 1] == ']';
    TrimmedStays(header);
  }

  lemma PathsReadsBack()
    ensures HeaderReadsBack("paths") && OneLine(Bracketed("paths"))
  {
    PlainNameReadsBack("paths");
  }

  lemma TitleIsOneLine()
    ensures OneLine(DEFAULT_LINES[0])
  {
  }

  lemma PathsLineIsOneLine()
    ensures OneLine(DEFAULT_LINES[2])
  {
    PathsReadsBack();
    assert DEFAULT_LINES[2] == Bracketed("paths");
  }

  lemma StartingLinesAreOneLiners(contents: Option<string>)
    ensures OneLiners(LinesOrDefault(contents))
  {
    TitleIsOneLine();
    PathsLineIsOneLine();
    assert DEFAULT_LINES[1] == "";
  }

  /** A set of one-line values leaves a file that is read back as the lines it was written from. */
  lemma SetLinesReadBack(lines: seq<string>, section: string, key: string, value: string, newLine: NewLine)
    requires HeaderReadsBack(section) && OneLine(Bracketed(section)) && OneLiners(lines)
    requires PlainKey(key) && OneLine(key) && OneLine(value)
    ensures var after := SetSection(lines, section, key, QuoteToml(value));
      ReadLines(WriteLines(after, newLine)) == after
  {
    ReadableSection(section);
    EntryIsOneLine(key, value);
    SetStaysOneLine(lines, Bracketed(section), key, EntryLine(key, QuoteToml(value)));
    WrittenLinesReadBack(SetSection(lines, section, key, QuoteToml(value)), newLine);
  }

  lemma SetStaysOneLine(lines: seq<string>, header: string, key: string, entry: string)
    requires Readable(Classify, header)
    requires OneLine(header) && OneLine(entry) && OneLiners(lines)
    ensures var after := SetValue(Classify, lines, header, key, entry);
      after != [] && OneLiners(after)
  {
    var before, dropped, after, added := SetKeepsOtherLines(Classify, lines, header, key, entry);
    JoinedStayOneLiners(before, dropped, added, entry, after);
  }

  lemma JoinedStayOneLiners(before: seq<string>, dropped: seq<string>, added: seq<string>, entry: string,
                            after: seq<string>)
    requires OneLiners(before + dropped + after) && OneLiners(added) && OneLine(entry)
    ensures OneLiners(before + added + [entry] + after)
  {
    OneLinersAppend(before + dropped, after);
    OneLinersAppend(before, dropped);
    OneLinersAppend(before, added);
    OneLinersAppend(before + added, [entry]);
    OneLinersAppend(before + added + [entry], after);
  }

  /** Through the file: a path that was set is read back exactly, if and only if it holds no line break. */
  lemma SetPathThenGetPath(contents: Option<string>, key: string, value: string, newLine: NewLine)
    requires PlainKey(key) && OneLine(key)
    ensures var after := WriteLines(SetSection(LinesOrDefault(contents), "paths", key, QuoteToml(value)), newLine);
      PathIn(Some(after), key) == Some(value) <==> OneLine(value)
  {
    var lines := SetSection(LinesOrDefault(contents), "paths", key, QuoteToml(value));
    if OneLine(value) {
      PathsReadsBack();
      StartingLinesAreOneLiners(contents);
      SetLinesReadBack(LinesOrDefault(contents), "paths", key, value, newLine);
      SetThenGet(LinesOrDefault(contents), "paths", key, value);
    } else {
      PathIsOneLine(WriteLines(lines, newLine), key);
    }
  }

  /** No path read from a file holds a line break. */
  lemma PathIsOneLine(text: string, key: string)
    ensures PathIn(Some(text), key).Some? ==> OneLine(PathIn(Some(text), key).value)
  {
    var lines := ReadLines(text);
    var r := FirstMatch(Classify, lines, Bracketed("paths"), key, false);
    if r < |lines| && Unquoted(Classify(lines[r]).raw).Some? {
      RawIsOneLine(lines[r]);
      UnquotedIsOneLine(Classify(lines[r]).raw);
    }
  }

  /** Through the file and back, in a portable root and outside: the path set is the one the runtime resolves,
      and the one that is forgotten again - if its text holds a name and no line break. */
  lemma PathSurvivesTheFile(contents: Option<string>, marked: set<Path>, directory: Path, key: string, path: Path,
                            newLine: NewLine)
    requires PlainKey(key) && OneLine(key) && PortablePaths.Absolute(directory) && PortablePaths.Absolute(path)
    requires Storable(marked, directory, path)
    ensures var text := PortablePaths.FormatPathValue(marked, directory, path);
      var after := WriteLines(SetSection(LinesOrDefault(contents), "paths", key, QuoteToml(text)), newLine);
      ResolvedPathIn(Some(after), directory, key) == Some(path) && ResolvesTo(directory, path)(text)
  {
    var text := PortablePaths.FormatPathValue(marked, directory, path);
    SetPathThenGetPath(contents, key, text, newLine);
    PortablePaths.StoredPathResolves(marked, directory, path);
  }
}
