/** The TOML subset the configuration editor reads: comments, trimming, and quoted strings. */
module TomlText {
  import opened Basics

  // -------------------------------------------------------------------------------------- comments

  /** Where a scan stands: inside '...', inside "...", and just after a backslash. */
  datatype Quotes = Quotes(single: bool, double: bool, escaped: bool)

  const OUTSIDE := Quotes(false, false, false)
  const INSIDE := Quotes(false, true, false)

  function Next(q: Quotes, c: char): Quotes {
    if q.double && c == '\\' && !q.escaped then q.(escaped := true)
    else if c == '\'' && !q.double then q.(single := !q.single, escaped := false)
    else if c == '"' && !q.single && !q.escaped then q.(double := !q.double, escaped := false)
    else q.(escaped := false)
  }

  predicate StartsComment(q: Quotes, c: char) {
    c == '#' && !q.single && !q.double
  }

  /** The index of the comment, or the length of the text. */
  function CommentAt(s: string, q: Quotes): (r: nat)
    ensures r <= |s|
  {
    if s == "" || StartsComment(q, s[0]) then 0 else 1 + CommentAt(s[1..], Next(q, s[0]))
  }

  function After(s: string, q: Quotes): Quotes {
    if s == "" then q else After(s[1..], Next(q, s[0]))
  }

  function WithoutComment(line: string): string {
    line[..CommentAt(line, OUTSIDE)]
  }

  method RemoveComment(line: string) returns (kept: string)
    ensures kept == WithoutComment(line)
  {
    var inSingle, inDouble, escaped := false, false, false;
    for index := 0 to |line|
      invariant CommentAt(line, OUTSIDE) == index + CommentAt(line[index..], Quotes(inSingle, inDouble, escaped))
    {
      var character := line[index];
      assert line[index..][1..] == line[index + 1..];
      if inDouble && character == '\\' && !escaped {
        escaped := true;
        continue;
      }
      if character == '\'' && !inDouble {
        inSingle := !inSingle;
      } else if character == '"' && !inSingle && !escaped {
        inDouble := !inDouble;
      } else if character == '#' && !inSingle && !inDouble {
        return line[..index];
      }
      escaped := false;
    }
    return line;
  }

  lemma {:induction false} CommentAtAppend(a: string, b: string, q: Quotes)
    requires CommentAt(a, q) == |a|
    ensures CommentAt(a + b, q) == |a| + CommentAt(b, After(a, q))
    ensures After(a + b, q) == After(b, After(a, q))
  {
    if a == "" {
      assert a + b == b;
    } else {
      assert (a + b)[1..] == a[1..] + b;
      CommentAtAppend(a[1..], b, Next(q, a[0]));
    }
  }

  // -------------------------------------------------------------------------------------- trimming

  /** `char.IsWhiteSpace`. */
  predicate IsWhite(c: char) {
    '\t' <= c <= '\r' || c == ' ' || c == '\U{0085}' || c == '\U{00A0}' || c == '\U{1680}' ||
    '\U{2000}' <= c <= '\U{200A}' || c == '\U{2028}' || c == '\U{2029}' || c == '\U{202F}' ||
    c == '\U{205F}' || c == '\U{3000}'
  }

  function TrimStart(s: string): string {
    if s != "" && IsWhite(s[0]) then TrimStart(s[1..]) else s
  }

  function TrimEnd(s: string): string {
    if s != "" && IsWhite(s[|s| - 1]) then TrimEnd(s[..|s| - 1]) else s
  }

  function Trim(s: string): string {
    TrimEnd(TrimStart(s))
  }

  /** Neither end is white: trimming does nothing. */
  predicate IsTrimmed(s: string) {
    s == "" || (!IsWhite(s[0]) && !IsWhite(s[|s| - 1]))
  }

  lemma TrimmedStays(s: string)
    requires IsTrimmed(s)
    ensures Trim(s) == s
  {
  }

  function IndexOf(s: string, c: char): (r: nat)
    ensures r <= |s|
    ensures r < |s| ==> s[r] == c
    ensures forall i | 0 <= i < r :: s[i] != c
  {
    if s == "" || s[0] == c then 0 else 1 + IndexOf(s[1..], c)
  }

  // --------------------------------------------------------------------------------------- quoting

  function Replace(s: string, c: char, with: string): string {
    if s == "" then "" else (if s[0] == c then with else [s[0]]) + Replace(s[1..], c, with)
  }

  function QuoteToml(value: string): string {
    "\"" + Replace(Replace(value, '\\', "\\\\"), '"', "\\\"") + "\""
  }

  function EscapeOne(c: char): string {
    if c == '\\' || c == '"' then ['\\', c] else [c]
  }

  function Escape(value: string): string {
    if value == "" then "" else EscapeOne(value[0]) + Escape(value[1..])
  }

  lemma {:induction false} ReplaceAppend(a: string, b: string, c: char, with: string)
    ensures Replace(a + b, c, with) == Replace(a, c, with) + Replace(b, c, with)
  {
    if a == "" {
      assert a + b == b;
    } else {
      assert (a + b)[1..] == a[1..] + b;
      ReplaceAppend(a[1..], b, c, with);
    }
  }

  function ReplaceOne(d: char, c: char, with: string): string {
    if d == c then with else [d]
  }

  lemma ReplacedIsEscaped(c: char)
    ensures Replace(ReplaceOne(c, '\\', "\\\\"), '"', "\\\"") == EscapeOne(c)
  {
    var first := ReplaceOne(c, '\\', "\\\\");
    assert c == '\\' ==> first[1..] == "\\";
  }

  /** Backslashes doubled first and quotes second is one pass over the characters. */
  lemma {:induction false} TwoPassesAreOne(value: string)
    ensures Replace(Replace(value, '\\', "\\\\"), '"', "\\\"") == Escape(value)
  {
    if value == "" {
    } else {
      var first, rest := ReplaceOne(value[0], '\\', "\\\\"), Replace(value[1..], '\\', "\\\\");
      TwoPassesAreOne(value[1..]);
      ReplaceAppend(first, rest, '"', "\\\"");
      ReplacedIsEscaped(value[0]);
      assert Replace(value, '\\', "\\\\") == first + rest;
    }
  }

  /** A backslash stands for the character after it, unless it is the last character. */
  function Unescape(s: string): string {
    if s == "" then ""
    else if s[0] == '\\' && |s| > 1 then [s[1]] + Unescape(s[2..])
    else [s[0]] + Unescape(s[1..])
  }

  function Unquoted(value: string): Option<string> {
    if |value| < 2 then None
    else if value[0] == '\'' && value[|value| - 1] == '\'' then Some(value[1..|value| - 1])
    else if value[0] != '"' || value[|value| - 1] != '"' then None
    else Some(Unescape(value[1..|value| - 1]))
  }

  method TryUnquoteToml(value: string) returns (ok: bool, result: string)
    ensures ok == Unquoted(value).Some? && (ok ==> result == Unquoted(value).value)
  {
    result := "";
    if |value| < 2 { return false, result; }
    if value[0] == '\'' && value[|value| - 1] == '\'' { return true, value[1..|value| - 1]; }
    if value[0] != '"' || value[|value| - 1] != '"' { return false, result; }
    ghost var body := value[1..|value| - 1];
    var builder, index := "", 1;
    while index < |value| - 1
      invariant 1 <= index <= |value| - 1
      invariant Unescape(body) == builder + Unescape(body[index - 1..])
    {
      ghost var rest := body[index - 1..];
      if value[index] == '\\' && index + 1 < |value| - 1 {
        assert rest[2..] == body[index + 1..];
        index := index + 1;
      } else {
        assert rest[1..] == body[index..];
      }
      builder := builder + [value[index]];
      index := index + 1;
    }
    return true, builder;
  }

  lemma {:induction false} UnescapeUndoesEscape(value: string)
    ensures Unescape(Escape(value)) == value
  {
    if value == "" {
    } else {
      var rest := Escape(value[1..]);
      UnescapeUndoesEscape(value[1..]);
      if value[0] == '\\' || value[0] == '"' {
        assert (['\\', value[0]] + rest)[2..] == rest;
      } else {
        assert ([value[0]] + rest)[1..] == rest;
      }
    }
  }

  /** Whatever a value holds, quoting and unquoting it gives it back. */
  lemma UnquoteUndoesQuote(value: string)
    ensures Unquoted(QuoteToml(value)) == Some(value)
  {
    TwoPassesAreOne(value);
    UnescapeUndoesEscape(value);
    assert QuoteToml(value)[1..|QuoteToml(value)| - 1] == Escape(value);
  }

  lemma EscapedOneStaysInside(c: char)
    ensures CommentAt(EscapeOne(c), INSIDE) == |EscapeOne(c)| && After(EscapeOne(c), INSIDE) == INSIDE
  {
    var s := EscapeOne(c);
    if |s| == 2 {
      assert s[1..] == [c] && s[1..][1..] == "";
      assert Next(INSIDE, '\\') == Quotes(false, true, true) && Next(Quotes(false, true, true), c) == INSIDE;
      assert After(s, INSIDE) == After([c], Quotes(false, true, true)) == After("", INSIDE);
      assert CommentAt(s, INSIDE) == 1 + CommentAt([c], Quotes(false, true, true));
    } else {
      assert s[1..] == "" && Next(INSIDE, c) == INSIDE;
    }
  }

  /** The scan for comments stays inside the quotes of an escaped value. */
  lemma {:induction false} EscapedHidesComments(value: string)
    ensures CommentAt(Escape(value), INSIDE) == |Escape(value)| && After(Escape(value), INSIDE) == INSIDE
  {
    if value == "" {
    } else {
      var rest := Escape(value[1..]);
      EscapedHidesComments(value[1..]);
      var first := EscapeOne(value[0]);
      EscapedOneStaysInside(value[0]);
      CommentAtAppend(first, rest, INSIDE);
    }
  }

  predicate NoQuoteOrComment(s: string) {
    forall i | 0 <= i < |s| :: s[i] != '#' && s[i] != '\'' && s[i] != '"'
  }

  lemma {:induction false} PlainHasNoComment(s: string)
    requires NoQuoteOrComment(s)
    ensures CommentAt(s, OUTSIDE) == |s| && After(s, OUTSIDE) == OUTSIDE
  {
    if s == "" {
    } else {
      PlainHasNoComment(s[1..]);
    }
  }

  /** Nothing in a quoted value, `#` included, starts a comment. */
  lemma QuotedHasNoComment(plain: string, value: string)
    requires NoQuoteOrComment(plain)
    ensures WithoutComment(plain + QuoteToml(value)) == plain + QuoteToml(value)
  {
    var body := Escape(value);
    TwoPassesAreOne(value);
    PlainHasNoComment(plain);
    EscapedHidesComments(value);
    CommentAtAppend(body, "\"", INSIDE);
    assert CommentAt("\"", INSIDE) == 1;
    var quoted := "\"" + (body + "\"");
    assert quoted[1..] == body + "\"";
    assert QuoteToml(value) == quoted;
    CommentAtAppend(plain, quoted, OUTSIDE);
  }

  // ------------------------------------------------------------------------------------------ lines

  /** What one line of the file says. A line with neither a header nor an `=` says nothing. */
  datatype Line = Header(text: string) | Entry(key: string, raw: string) | Nothing

  predicate IsSection(value: string) {
    |value| >= 2 && value[0] == '[' && value[|value| - 1] == ']'
  }

  function Stripped(line: string): string {
    Trim(WithoutComment(line))
  }

  function Classify(line: string): Line {
    var trimmed := Stripped(line);
    var equals := IndexOf(trimmed, '=');
    if IsSection(trimmed) then Header(trimmed)
    else if equals == |trimmed| then Nothing
    else Entry(Trim(trimmed[..equals]), Trim(trimmed[equals + 1..]))
  }

  function EntryLine(key: string, value: string): string {
    key + " = " + value
  }

  /** A key the editor can find again; the keys it is used with are all of this kind. */
  predicate PlainKey(key: string) {
    NoQuoteOrComment(key) && IsTrimmed(key) && forall i | 0 <= i < |key| :: key[i] != '='
  }

  lemma ClassifyByParts(line: string, a: string, b: string)
    requires Stripped(line) == a + "=" + b && !IsSection(a + "=" + b)
    requires forall i | 0 <= i < |a| :: a[i] != '='
    ensures Classify(line) == Entry(Trim(a), Trim(b))
  {
    var s := a + "=" + b;
    assert s[|a|] == '=';
    assert forall i | 0 <= i < |a| :: s[i] == a[i];
    assert s[..|a|] == a && s[|a| + 1..] == b;
  }

  lemma SpacesGo(key: string, raw: string)
    requires IsTrimmed(key) && IsTrimmed(raw) && raw != ""
    ensures Trim(key + " ") == key && Trim(" " + raw) == raw
    ensures key != "" ==> Trim(EntryLine(key, raw)) == EntryLine(key, raw)
    ensures key == "" ==> Trim(EntryLine(key, raw)) == "= " + raw
  {
    assert (key + " ")[..|key|] == key;
    assert (" " + raw)[1..] == raw;
    assert TrimStart(" " + raw) == TrimStart(raw) == raw;
    if key == "" {
      assert key + " " == " " && " "[1..] == "";
      assert TrimStart(" ") == TrimStart("");
      var line := EntryLine(key, raw);
      assert line[1..] == "= " + raw;
      assert TrimStart(line) == TrimStart("= " + raw) == "= " + raw;
    } else {
      assert (key + " ")[0] == key[0];
      assert TrimEnd(key + " ") == TrimEnd(key) == key;
    }
  }

  /** The line written for an entry is read back as that entry. */
  lemma WrittenEntryReadsBack(key: string, value: string)
    requires PlainKey(key)
    ensures Classify(EntryLine(key, QuoteToml(value))) == Entry(key, QuoteToml(value))
  {
    var raw := QuoteToml(value);
    var line, before, after := EntryLine(key, raw), if key == "" then "" else key + " ", " " + raw;
    QuotedHasNoComment(key + " = ", value);
    SpacesGo(key, raw);
    assert Stripped(line) == before + "=" + after;
    assert after[|after| - 1] == '"';
    ClassifyByParts(line, before, after);
  }

  // ------------------------------------------------------------------------------ stripping a stripped line

  lemma {:induction false} TrimStartIsSuffix(s: string)
    ensures |TrimStart(s)| <= |s| && TrimStart(s) == s[|s| - |TrimStart(s)|..]
    ensures TrimStart(s) != "" ==> !IsWhite(TrimStart(s)[0])
  {
    if s == "" || !IsWhite(s[0]) {
    } else {
      TrimStartIsSuffix(s[1..]);
    }
  }

  lemma {:induction false} TrimEndIsPrefix(s: string)
    ensures |TrimEnd(s)| <= |s| && TrimEnd(s) == s[..|TrimEnd(s)|]
    ensures TrimEnd(s) != "" ==> !IsWhite(TrimEnd(s)[|TrimEnd(s)| - 1])
  {
    if s == "" || !IsWhite(s[|s| - 1]) {
    } else {
      TrimEndIsPrefix(s[..|s| - 1]);
    }
  }

  lemma {:induction false} PrefixHasNoComment(s: string, n: nat, q: Quotes)
    requires n <= CommentAt(s, q)
    ensures CommentAt(s[..n], q) == n
  {
    if n == 0 {
    } else {
      PrefixHasNoComment(s[1..], n - 1, Next(q, s[0]));
      assert s[..n][1..] == s[1..][..n - 1];
    }
  }

  lemma {:induction false} TrimStartShowsNoComment(s: string)
    requires CommentAt(s, OUTSIDE) == |s|
    ensures CommentAt(TrimStart(s), OUTSIDE) == |TrimStart(s)|
  {
    if s == "" || !IsWhite(s[0]) {
    } else {
      TrimStartShowsNoComment(s[1..]);
    }
  }

  lemma StrippedTwice(line: string)
    ensures Stripped(Stripped(line)) == Stripped(line)
  {
    var kept := WithoutComment(line);
    var started := TrimStart(kept);
    var trimmed := Trim(kept);
    PrefixHasNoComment(line, CommentAt(line, OUTSIDE), OUTSIDE);
    TrimStartShowsNoComment(kept);
    TrimStartIsSuffix(kept);
    TrimEndIsPrefix(started);
    PrefixHasNoComment(started, |trimmed|, OUTSIDE);
    TrimmedStays(trimmed);
  }
}
