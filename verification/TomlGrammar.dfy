/** The lines of the configuration as a grammar: what the scans of `TomlText` must find in them. */
module TomlGrammar {
  import opened Basics
  import opened TomlText

  // -------------------------------------------------------------------------------------- trimming

  ghost predicate AllWhite(s: string) {
    forall i | 0 <= i < |s| :: IsWhite(s[i])
  }

  /** The white space of the Basic Multilingual Plane. */
  lemma WhiteSpaceIs(c: char)
    ensures IsWhite(c) <==> c as int in [
      0x09, 0x0A, 0x0B, 0x0C, 0x0D, 0x20, 0x85, 0xA0, 0x1680, 0x2000, 0x2001, 0x2002, 0x2003, 0x2004, 0x2005, 0x2006,
      0x2007, 0x2008, 0x2009, 0x200A, 0x2028, 0x2029, 0x202F, 0x205F, 0x3000]
  {
  }

  /** Trimming takes off white space at both ends, all of it and nothing else. */
  lemma TrimTakesWhite(a: string, s: string, b: string)
    requires AllWhite(a) && AllWhite(b) && IsTrimmed(s)
    ensures Trim(a + s + b) == s
  {
    if s == "" {
      WhiteStart(a + b, "");
      assert a + s + b == a + b + "" && a + b == a + b + "";
    } else {
      assert a + s + b == a + (s + b);
      WhiteStart(a, s + b);
      assert TrimStart(s + b) == s + b;
      WhiteEnd(s, b);
    }
  }

  lemma {:induction false} WhiteStart(a: string, s: string)
    requires AllWhite(a)
    ensures TrimStart(a + s) == TrimStart(s)
  {
    if a == "" {
      assert a + s == s;
    } else {
      assert (a + s)[1..] == a[1..] + s;
      WhiteStart(a[1..], s);
    }
  }

  lemma {:induction false} WhiteEnd(s: string, b: string)
    requires AllWhite(b) && (s != "" ==> !IsWhite(s[|s| - 1]))
    ensures TrimEnd(s + b) == s
  {
    if b == "" {
      assert s + b == s;
    } else {
      assert (s + b)[..|s + b| - 1] == s + b[..|b| - 1];
      WhiteEnd(s, b[..|b| - 1]);
    }
  }

  // ------------------------------------------------------------------------------------ what a line is

  /** A character between double quotes, after a backslash or not. */
  datatype Item = Bare(c: char) | Escaped(c: char)

  function Spelled(items: seq<Item>): string {
    if items == [] then "" else ItemText(items[0]) + Spelled(items[1..])
  }

  function ItemText(item: Item): string {
    match item
    case Bare(c) => [c]
    case Escaped(c) => ['\\', c]
  }

  function Characters(items: seq<Item>): (s: string)
    ensures |s| == |items| && forall i | 0 <= i < |items| :: s[i] == items[i].c
  {
    seq(|items|, i requires 0 <= i < |items| => items[i].c)
  }

  /** A backslash is never bare. */
  ghost predicate Escapes(items: seq<Item>) {
    forall i | 0 <= i < |items| :: items[i].Bare? ==> items[i].c != '\\'
  }

  /** Nor is the quote that would end the string. */
  ghost predicate Inside(items: seq<Item>) {
    Escapes(items) && forall i | 0 <= i < |items| :: items[i].Bare? ==> items[i].c != '"'
  }

  datatype Piece = Plain(c: char) | Literal(text: string) | Basic(items: seq<Item>)

  ghost predicate IsPiece(p: Piece) {
    match p
    case Plain(c) => c != '#' && c != '\'' && c != '"'
    case Literal(text) => '\'' !in text
    case Basic(items) => Inside(items)
  }

  function PieceText(p: Piece): string {
    match p
    case Plain(c) => [c]
    case Literal(text) => "'" + (text + "'")
    case Basic(items) => "\"" + (Spelled(items) + "\"")
  }

  /** How a line ends: in its last piece, in a comment, or in a quote that is never closed. */
  datatype Ending =
    | Complete
    | Comment(text: string)
    | OpenLiteral(text: string)
    | OpenBasic(items: seq<Item>, dangling: bool)

  ghost predicate IsEnding(e: Ending) {
    match e
    case Complete => true
    case Comment(_) => true
    case OpenLiteral(text) => '\'' !in text
    case OpenBasic(items, _) => Inside(items)
  }

  function EndingText(e: Ending): string {
    match e
    case Complete => ""
    case Comment(text) => "#" + text
    case OpenLiteral(text) => "'" + text
    case OpenBasic(items, dangling) => "\"" + (Spelled(items) + if dangling then "\\" else "")
  }

  function Text(pieces: seq<Piece>): string {
    if pieces == [] then "" else PieceText(pieces[0]) + Text(pieces[1..])
  }

  ghost predicate ArePieces(pieces: seq<Piece>) {
    forall i | 0 <= i < |pieces| :: IsPiece(pieces[i])
  }

  // ---------------------------------------------------------------------------- scanning for comments

  const IN_LITERAL := Quotes(true, false, false)

  lemma {:induction false} LiteralScan(text: string)
    requires '\'' !in text
    ensures CommentAt(text, IN_LITERAL) == |text| && After(text, IN_LITERAL) == IN_LITERAL
  {
    if text == "" {
    } else {
      assert text[0] in text;
      LiteralScan(text[1..]);
    }
  }

  lemma {:induction false} BasicScan(items: seq<Item>)
    requires Inside(items)
    ensures CommentAt(Spelled(items), INSIDE) == |Spelled(items)| && After(Spelled(items), INSIDE) == INSIDE
  {
    if items == [] {
    } else {
      var rest := Spelled(items[1..]);
      BasicScan(items[1..]);
      match items[0] {
        case Bare(c) =>
          assert Spelled(items)[1..] == rest;
        case Escaped(c) =>
          var escaped := Quotes(false, true, true);
          assert Spelled(items)[1..] == [c] + rest && ([c] + rest)[1..] == rest;
          assert Next(INSIDE, '\\') == escaped && Next(escaped, c) == INSIDE;
      }
    }
  }

  lemma OneScan(q: Quotes, c: char)
    requires !StartsComment(q, c)
    ensures CommentAt([c], q) == 1 && After([c], q) == Next(q, c)
  {
    assert [c][1..] == "";
  }

  lemma QuotedScan(c: char, inside: Quotes, body: string, close: string)
    requires c != '#' && Next(OUTSIDE, c) == inside
    requires CommentAt(body, inside) == |body| && CommentAt(close, After(body, inside)) == |close|
    ensures CommentAt([c] + (body + close), OUTSIDE) == |[c] + (body + close)|
    ensures After([c] + (body + close), OUTSIDE) == After(close, After(body, inside))
  {
    OneScan(OUTSIDE, c);
    CommentAtAppend(body, close, inside);
    CommentAtAppend([c], body + close, OUTSIDE);
  }

  lemma PieceScan(p: Piece)
    requires IsPiece(p)
    ensures CommentAt(PieceText(p), OUTSIDE) == |PieceText(p)| && After(PieceText(p), OUTSIDE) == OUTSIDE
  {
    match p {
      case Plain(c) =>
        OneScan(OUTSIDE, c);
      case Literal(text) =>
        LiteralScan(text);
        OneScan(IN_LITERAL, '\'');
        QuotedScan('\'', IN_LITERAL, text, "'");
      case Basic(items) =>
        BasicScan(items);
        OneScan(INSIDE, '"');
        QuotedScan('"', INSIDE, Spelled(items), "\"");
    }
  }

  lemma {:induction false} PiecesScan(pieces: seq<Piece>)
    requires ArePieces(pieces)
    ensures CommentAt(Text(pieces), OUTSIDE) == |Text(pieces)| && After(Text(pieces), OUTSIDE) == OUTSIDE
  {
    if pieces == [] {
    } else {
      PieceScan(pieces[0]);
      PiecesScan(pieces[1..]);
      CommentAtAppend(PieceText(pieces[0]), Text(pieces[1..]), OUTSIDE);
    }
  }

  lemma EndingScan(e: Ending)
    requires IsEnding(e)
    ensures CommentAt(EndingText(e), OUTSIDE) == if e.Comment? then 0 else |EndingText(e)|
  {
    match e {
      case Complete =>
      case Comment(_) =>
      case OpenLiteral(text) =>
        LiteralScan(text);
        QuotedScan('\'', IN_LITERAL, text, "");
        assert text + "" == text;
      case OpenBasic(items, dangling) =>
        BasicScan(items);
        if dangling { OneScan(INSIDE, '\\'); }
        QuotedScan('"', INSIDE, Spelled(items), if dangling then "\\" else "");
    }
  }

  /** Just the comment is taken off: a `#` starts one outside of quotes only, a backslash hides a quote between
      double quotes only, and in a quote that is never closed nothing is a comment. */
  lemma CommentExactly(pieces: seq<Piece>, e: Ending)
    requires ArePieces(pieces) && IsEnding(e)
    ensures WithoutComment(Text(pieces) + EndingText(e)) ==
            Text(pieces) + if e.Comment? then "" else EndingText(e)
  {
    PiecesScan(pieces);
    EndingScan(e);
    CommentAtAppend(Text(pieces), EndingText(e), OUTSIDE);
  }

  // ------------------------------------------------------------------------- every line is one of these

  /** The first character between double quotes, and what follows it. */
  lemma FirstItem(s: string) returns (item: Item, rest: string)
    requires s != "" && s != "\\"
    ensures s == ItemText(item) + rest && |rest| < |s|
    ensures if s[0] == '\\' then item.Escaped? else item == Bare(s[0])
  {
    if s[0] == '\\' {
      item, rest := Escaped(s[1]), s[2..];
    } else {
      item, rest := Bare(s[0]), s[1..];
    }
  }

  lemma OneMoreItem(item: Item, items: seq<Item>, tail: string)
    ensures ItemText(item) + (Spelled(items) + tail) == Spelled([item] + items) + tail
    ensures (item.Bare? ==> item.c != '\\') && Escapes(items) ==> Escapes([item] + items)
    ensures (item.Bare? ==> item.c != '\\' && item.c != '"') && Inside(items) ==> Inside([item] + items)
  {
    assert ([item] + items)[1..] == items;
  }

  lemma {:induction false} BodyIsSpelled(s: string) returns (items: seq<Item>, dangling: bool)
    ensures Escapes(items) && s == Spelled(items) + if dangling then "\\" else ""
    decreases |s|
  {
    if s == "" || s == "\\" {
      items, dangling := [], s == "\\";
    } else {
      var first, rest := FirstItem(s);
      var others;
      others, dangling := BodyIsSpelled(rest);
      OneMoreItem(first, others, if dangling then "\\" else "");
      items := [first] + others;
    }
  }

  datatype Closing = Closed(rest: string) | Open(dangling: bool)

  function ClosingText(c: Closing): string {
    match c
    case Closed(rest) => "\"" + rest
    case Open(dangling) => if dangling then "\\" else ""
  }

  /** After a double quote: the characters up to the one that closes it, if one does. */
  lemma {:induction false} BasicIsSpelled(s: string) returns (items: seq<Item>, closing: Closing)
    ensures Inside(items) && s == Spelled(items) + ClosingText(closing)
    ensures closing.Closed? ==> |closing.rest| < |s|
    decreases |s|
  {
    if s == "" || s == "\\" {
      items, closing := [], Open(s == "\\");
    } else if s[0] == '"' {
      items, closing := [], Closed(s[1..]);
    } else {
      var first, rest := FirstItem(s);
      var others;
      others, closing := BasicIsSpelled(rest);
      OneMoreItem(first, others, ClosingText(closing));
      items := [first] + others;
    }
  }

  ghost predicate IsLine(line: string, pieces: seq<Piece>, e: Ending) {
    ArePieces(pieces) && IsEnding(e) && line == Text(pieces) + EndingText(e)
  }

  lemma OneMorePiece(line: string, p: Piece, rest: string, pieces: seq<Piece>, e: Ending)
    requires IsPiece(p) && line == PieceText(p) + rest && IsLine(rest, pieces, e)
    ensures IsLine(line, [p] + pieces, e)
  {
    assert ([p] + pieces)[1..] == pieces;
    Regroup(PieceText(p), Text(pieces), EndingText(e));
  }

  lemma Regroup(a: string, b: string, c: string)
    ensures a + (b + c) == a + b + c
  {
  }

  /** How a line starts: with a piece, or with its ending. */
  lemma FirstPiece(line: string) returns (p: Piece, e: Ending, rest: string)
    requires line != ""
    ensures (IsPiece(p) && line == PieceText(p) + rest && |rest| < |line|) || IsLine(line, [], e)
  {
    p, e, rest := Plain(line[0]), Complete, line[1..];
    if line[0] == '#' {
      e := Comment(rest);
    } else if line[0] == '\'' {
      var end := IndexOf(rest, '\'');
      if end == |rest| {
        e := OpenLiteral(rest);
      } else {
        p, rest := Literal(rest[..end]), rest[end + 1..];
      }
    } else if line[0] == '"' {
      var items, closing := BasicIsSpelled(rest);
      match closing {
        case Open(dangling) => e := OpenBasic(items, dangling);
        case Closed(after) => p, rest := Basic(items), after;
      }
    }
  }

  /** Every line is made of pieces and an ending. */
  lemma {:induction false} EveryLineIsSpelled(line: string) returns (pieces: seq<Piece>, e: Ending)
    ensures IsLine(line, pieces, e)
    decreases |line|
  {
    if line == "" {
      pieces, e := [], Complete;
    } else {
      var p, ending, rest := FirstPiece(line);
      if IsLine(line, [], ending) { return [], ending; }
      pieces, e := EveryLineIsSpelled(rest);
      OneMorePiece(line, p, rest, pieces, e);
      pieces := [p] + pieces;
    }
  }

  // -------------------------------------------------------------------------------------- unquoting

  lemma {:induction false} UnescapesCharacters(items: seq<Item>, tail: string)
    requires Escapes(items) && (tail == "" || tail == "\\")
    ensures Unescape(Spelled(items) + tail) == Characters(items) + tail
  {
    if items == [] {
      assert Spelled(items) + tail == tail && Characters(items) + tail == tail;
      if tail != "" { assert tail[1..] == ""; }
    } else {
      UnescapesCharacters(items[1..], tail);
      UnescapesFirst(items[0], Spelled(items[1..]) + tail);
      Regroup(ItemText(items[0]), Spelled(items[1..]), tail);
      Regroup([items[0].c], Characters(items[1..]), tail);
      assert Characters(items) == [items[0].c] + Characters(items[1..]);
    }
  }

  lemma UnescapesFirst(item: Item, rest: string)
    requires item.Bare? ==> item.c != '\\'
    ensures Unescape(ItemText(item) + rest) == [item.c] + Unescape(rest)
  {
    var s := ItemText(item) + rest;
    if item.Bare? {
      assert s[1..] == rest;
    } else {
      assert s[2..] == rest;
    }
  }

  /** A literal string is taken as it stands; in a basic one a backslash stands for the character after it, and a
      last one for itself. */
  lemma UnquotedExactly(text: string, items: seq<Item>, dangling: bool)
    requires Escapes(items)
    ensures Unquoted("'" + text + "'") == Some(text)
    ensures Unquoted("\"" + (Spelled(items) + if dangling then "\\" else "") + "\"") ==
            Some(Characters(items) + if dangling then "\\" else "")
  {
    var body := Spelled(items) + if dangling then "\\" else "";
    UnescapesCharacters(items, if dangling then "\\" else "");
    assert ("'" + text + "'")[1..|"'" + text + "'"| - 1] == text;
    assert ("\"" + body + "\"")[1..|"\"" + body + "\""| - 1] == body;
  }

  /** Nothing but a text between two single or two double quotes can be unquoted. */
  lemma OnlyQuotedIsUnquoted(value: string)
    ensures Unquoted(value).Some? <==>
            |value| >= 2 && value[0] == value[|value| - 1] && value[0] in "'\""
  {
  }

  // -------------------------------------------------------------------------------------- whole lines

  lemma {:induction false} WhiteIsPlain(s: string) returns (pieces: seq<Piece>)
    requires forall i | 0 <= i < |s| :: s[i] != '#' && s[i] != '\'' && s[i] != '"'
    ensures ArePieces(pieces) && Text(pieces) == s
  {
    pieces := [];
    if s != "" {
      var rest := WhiteIsPlain(s[1..]);
      pieces := [Plain(s[0])] + rest;
      assert pieces[1..] == rest;
    }
  }

  lemma {:induction false} TextAppend(a: seq<Piece>, b: seq<Piece>)
    ensures Text(a + b) == Text(a) + Text(b)
  {
    if a == [] {
      assert a + b == b;
    } else {
      assert (a + b)[1..] == a[1..] + b;
      TextAppend(a[1..], b);
    }
  }

  /** A comment after the line, and white space around it, do not count. */
  lemma StrippedExactly(before: string, line: seq<Piece>, after: string, e: Ending)
    requires AllWhite(before) && AllWhite(after) && ArePieces(line) && IsTrimmed(Text(line))
    requires e.Complete? || e.Comment?
    ensures Stripped(before + Text(line) + after + EndingText(e)) == Text(line)
  {
    var a := WhiteIsPlain(before);
    var b := WhiteIsPlain(after);
    TextAppend(a, line);
    TextAppend(a + line, b);
    CommentExactly(a + line + b, e);
    assert WithoutComment(before + Text(line) + after + EndingText(e)) == before + Text(line) + after;
    TrimTakesWhite(before, Text(line), after);
  }

  /** An entry reads as its key and value with any white space around them and any comment after it. */
  lemma EntryReads(before: string, key: string, left: string, right: string, value: seq<Piece>, after: string, e: Ending)
    requires AllWhite(before) && AllWhite(left) && AllWhite(right) && AllWhite(after)
    requires PlainKey(key) && key != "" && key[0] != '[' && ArePieces(value) && IsTrimmed(Text(value)) && value != []
    requires e.Complete? || e.Comment?
    ensures Classify(before + (key + left + "=" + (right + Text(value))) + after + EndingText(e)) ==
            Entry(key, Text(value))
  {
    var line := EntryPieces(key, left, right, value);
    StrippedExactly(before, line, after, e);
    PartsOf(before + Text(line) + after + EndingText(e), key, left, right, Text(value));
  }

  lemma EntryPieces(key: string, left: string, right: string, value: seq<Piece>) returns (line: seq<Piece>)
    requires AllWhite(left) && AllWhite(right) && NoQuoteOrComment(key) && IsTrimmed(key) && key != ""
    requires ArePieces(value) && IsTrimmed(Text(value)) && value != []
    ensures ArePieces(line) && IsTrimmed(Text(line)) && Text(line) == key + left + "=" + (right + Text(value))
  {
    var start := key + left + "=";
    PlainStart(key, left, right);
    var head := WhiteIsPlain(start + right);
    TextAppend(head, value);
    TextIsNotEmpty(value);
    line := head + value;
    Regroup(start, right, Text(value));
    EndsDecide(start + right, Text(value));
  }

  lemma PlainStart(key: string, left: string, right: string)
    requires AllWhite(left) && AllWhite(right) && NoQuoteOrComment(key) && IsTrimmed(key) && key != ""
    ensures NoQuoteOrComment(key + left + "=" + right) && !IsWhite((key + left + "=" + right)[0])
  {
    assert NoQuoteOrComment(left) && NoQuoteOrComment(right);
    assert (key + left + "=" + right)[0] == key[0];
  }

  lemma EndsDecide(a: string, b: string)
    requires a != "" && !IsWhite(a[0]) && b != "" && !IsWhite(b[|b| - 1])
    ensures IsTrimmed(a + b)
  {
  }

  lemma PartsOf(text: string, key: string, left: string, right: string, value: string)
    requires AllWhite(left) && AllWhite(right) && PlainKey(key) && key != "" && key[0] != '[' && IsTrimmed(value)
    requires Stripped(text) == key + left + "=" + (right + value)
    ensures Classify(text) == Entry(key, value)
  {
    TrimTakesWhite("", key, left);
    TrimTakesWhite(right, value, "");
    assert "" + key + left == key + left && right + value + "" == right + value;
    assert (key + left + "=" + (right + value))[0] == key[0];
    ClassifyByParts(text, key + left, right + value);
  }

  lemma TextIsNotEmpty(pieces: seq<Piece>)
    requires pieces != []
    ensures Text(pieces) != ""
  {
    assert PieceText(pieces[0]) != "";
  }

  /** So does a header, and a line with nothing else says nothing. */
  lemma HeaderReads(before: string, name: string, after: string, e: Ending)
    requires AllWhite(before) && AllWhite(after) && NoQuoteOrComment(name) && (e.Complete? || e.Comment?)
    ensures Classify(before + ("[" + name + "]") + after + EndingText(e)) == Header("[" + name + "]")
  {
    var header := "[" + name + "]";
    var pieces := WhiteIsPlain(header);
    assert header[0] == '[' && header[|header| - 1] == ']';
    StrippedExactly(before, pieces, after, e);
  }

  lemma BlankReads(before: string, e: Ending)
    requires AllWhite(before) && (e.Complete? || e.Comment?)
    ensures Classify(before + EndingText(e)) == Nothing
  {
    StrippedExactly(before, [], "", e);
    assert Text([]) == "" && before + "" == before;
  }
}
