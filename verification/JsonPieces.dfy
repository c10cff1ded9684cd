/** The text of a JSON object as plain characters, string literals and nested objects, so that
    braces inside strings and inside nested objects both occur; and what the scanner makes of it. */
module JsonPieces {
  import opened Bytes
  import opened ReleaseScanner

  // ---- Text of objects ----------------------------------------------------

  datatype Piece = Plain(c: char) | Literal(raw: string) | Nested(inside: seq<Piece>)

  /** The inside of a string literal as it stands in the text: no bare quote, no dangling backslash. */
  predicate Raw(s: string)
    decreases |s|
  {
    if s == "" then true
    else if s[0] == '"' then false
    else if s[0] == '\\' then |s| > 1 && Raw(s[2..])
    else Raw(s[1..])
  }

  /** What may stand behind a string literal in an object: a blank, a colon, a comma, a closing bracket. */
  predicate Closes(c: char) {
    Blank(c) || c == ':' || c == ',' || c == ']'
  }

  predicate Valid(p: Piece)
    decreases p, 0
  {
    match p
    case Plain(c) => c != '"' && c != '{' && c != '}'
    case Literal(raw) => Raw(raw)
    case Nested(inside) => ValidAll(inside)
  }

  predicate ValidAll(ps: seq<Piece>)
    decreases ps, 1
  {
    ps == []
    || (Valid(ps[0]) && ValidAll(ps[1..])
        && (ps[0].Literal? && |ps| > 1 ==> ps[1].Plain? && Closes(ps[1].c)))
  }

  function Text(p: Piece): string
    decreases p, 0
  {
    match p
    case Plain(c) => [c]
    case Literal(raw) => Quoted(raw)
    case Nested(inside) => "{" + TextAll(inside) + "}"
  }

  function TextAll(ps: seq<Piece>): string
    decreases ps, 1
  {
    if ps == [] then "" else Text(ps[0]) + TextAll(ps[1..])
  }

  /** White space in section 2 of RFC 8259: space, tab, line feed, carriage return. */
  predicate Space(c: char) {
    c as int == 0x20 || c as int == 0x09 || c as int == 0x0A || c as int == 0x0D
  }

  predicate AllSpace(s: string) {
    forall i :: 0 <= i < |s| ==> Space(s[i])
  }

  /** The scanner skips white space, all of it and nothing else. */
  lemma {:induction false} BlanksAreSpace(ws: string, t: string)
    requires AllSpace(ws) && (t == "" || !Space(t[0]))
    ensures Blanks(ws + t) == |ws|
  {
    if ws == "" {
      assert ws + t == t;
    } else {
      BlanksAreSpace(ws[1..], t);
      assert (ws + t)[1..] == ws[1..] + t;
    }
  }

  lemma {:induction false} SpaceSeparates(ws: string, t: string)
    requires AllSpace(ws)
    ensures Separators(ws + t) == |ws| + Separators(t)
  {
    if ws == "" {
      assert ws + t == t;
    } else {
      SpaceSeparates(ws[1..], t);
      assert (ws + t)[1..] == ws[1..] + t;
    }
  }

  lemma ColonSeparates(t: string)
    ensures Separators(":" + t) == 1 + Separators(t)
  {
    assert (":" + t)[1..] == t;
  }

  lemma NoneSeparates(t: string)
    requires t == "" || (!Space(t[0]) && t[0] != ':')
    ensures Separators(t) == 0
  {
  }

  /** Between a name and its value it skips the colon as well. */
  lemma SeparatorsAreSpace(a: string, b: string, t: string)
    requires AllSpace(a) && AllSpace(b) && (t == "" || (!Space(t[0]) && t[0] != ':'))
    ensures Separators(a + (":" + (b + t))) == |a| + 1 + |b|
  {
    hide *;
    NoneSeparates(t);
    SpaceSeparates(a, ":" + (b + t));
    ColonSeparates(b + t);
    SpaceSeparates(b, t);
  }

  /** A string literal ends at its own closing quote. */
  lemma {:induction false} StringLenOf(raw: string, rest: string)
    requires Raw(raw)
    ensures StringLen(raw + "\"" + rest) == |raw|
    decreases |raw|
  {
    var t := raw + "\"" + rest;
    if raw != "" {
      var k := if raw[0] == '\\' then 2 else 1;
      StringLenOf(raw[k..], rest);
      assert t[k..] == raw[k..] + "\"" + rest;
    }
  }

  /** A literal keeps the scanner's depth. */
  lemma LiteralKeepsDepth(raw: string, rest: string, depth: nat)
    requires Raw(raw) && depth > 0
    ensures ObjectLen(Quoted(raw) + rest, depth) == |Quoted(raw)| + ObjectLen(rest, depth)
  {
    var t := Quoted(raw) + rest;
    assert t[1..] == raw + "\"" + rest;
    StringLenOf(raw, rest);
    assert t[|raw| + 2..] == rest;
  }

  /** Every piece is passed over whole, whatever braces are inside, and leaves the depth as it was. */
  lemma {:induction false} PieceKeepsDepth(p: Piece, rest: string, depth: nat)
    requires Valid(p) && depth > 0
    ensures ObjectLen(Text(p) + rest, depth) == |Text(p)| + ObjectLen(rest, depth)
    decreases p, 0
  {
    var t := Text(p) + rest;
    match p {
      case Plain(c) => assert t[1..] == rest;
      case Literal(raw) => LiteralKeepsDepth(raw, rest, depth);
      case Nested(inside) =>
        var close := "}" + rest;
        assert t[1..] == TextAll(inside) + close;
        PiecesKeepDepth(inside, close, depth + 1);
        assert close[1..] == rest;
    }
  }

  lemma {:induction false} PiecesKeepDepth(ps: seq<Piece>, rest: string, depth: nat)
    requires ValidAll(ps) && depth > 0
    ensures ObjectLen(TextAll(ps) + rest, depth) == |TextAll(ps)| + ObjectLen(rest, depth)
    decreases ps, 1
  {
    if ps == [] {
      assert TextAll(ps) + rest == rest;
    } else {
      Assoc(Text(ps[0]), TextAll(ps[1..]), rest);
      PieceKeepsDepth(ps[0], TextAll(ps[1..]) + rest, depth);
      PiecesKeepDepth(ps[1..], rest, depth);
    }
  }

  /** The scanner stops exactly behind the object's own closing brace. */
  lemma ObjectEnds(inside: seq<Piece>, rest: string)
    requires ValidAll(inside)
    ensures ObjectEnd(Text(Nested(inside)) + rest) == |Text(Nested(inside))|
  {
    var t := Text(Nested(inside)) + rest;
    var close := "}" + rest;
    assert t[1..] == TextAll(inside) + close;
    PiecesKeepDepth(inside, close, 1);
    assert close[1..] == rest;
  }

  // ---- Values of literals -------------------------------------------------

  /** The inside of a literal without the backslashes of its escapes. */
  function Unescaped(raw: string): string
    decreases |raw|
  {
    if raw == "" then ""
    else if raw[0] == '\\' && |raw| > 1 then [raw[1]] + Unescaped(raw[2..])
    else [raw[0]] + Unescaped(raw[1..])
  }

  // What RFC 8259, section 7, makes of the inside of a literal, as code units.

  predicate HexDigit(c: char) {
    '0' <= c <= '9' || 'a' <= c <= 'f' || 'A' <= c <= 'F'
  }

  function HexValue(c: char): nat
    requires HexDigit(c)
  {
    if c <= '9' then c as int - '0' as int else if c <= 'F' then c as int - 'A' as int + 10 else c as int - 'a' as int + 10
  }

  predicate UnicodeEscape(raw: string) {
    |raw| >= 6 && raw[0] == '\\' && raw[1] == 'u' && HexDigit(raw[2]) && HexDigit(raw[3]) && HexDigit(raw[4]) && HexDigit(raw[5])
  }

  predicate WellEscaped(raw: string)
    decreases |raw|
  {
    if raw == "" then true
    else if raw[0] != '\\' then WellEscaped(raw[1..])
    else if UnicodeEscape(raw) then WellEscaped(raw[6..])
    else |raw| > 1 && raw[1] in "\"\\/bfnrt" && WellEscaped(raw[2..])
  }

  function EscapeCode(c: char): int {
    if c == 'b' then 8 else if c == 'f' then 12 else if c == 'n' then 10 else if c == 'r' then 13 else if c == 't' then 9 else c as int
  }

  function JsonCodes(raw: string): seq<int>
    decreases |raw|
  {
    if raw == "" then []
    else if UnicodeEscape(raw) then
      [((HexValue(raw[2]) * 16 + HexValue(raw[3])) * 16 + HexValue(raw[4])) * 16 + HexValue(raw[5])] + JsonCodes(raw[6..])
    else if raw[0] == '\\' && |raw| > 1 then [EscapeCode(raw[1])] + JsonCodes(raw[2..])
    else [raw[0] as int] + JsonCodes(raw[1..])
  }

  function Codes(s: string): (r: seq<int>)
    ensures |r| == |s|
  {
    if s == "" then [] else [s[0] as int] + Codes(s[1..])
  }

  /** Only escapes whose character stands for itself. */
  predicate PlainEscapes(raw: string)
    decreases |raw|
  {
    if raw == "" then true
    else if raw[0] == '\\' && |raw| > 1 then raw[1] in "\"\\/" && PlainEscapes(raw[2..])
    else PlainEscapes(raw[1..])
  }

  lemma UnescapedUnicode(raw: string)
    requires UnicodeEscape(raw)
    ensures |Unescaped(raw)| == 5 + |Unescaped(raw[6..])|
  {
    assert Unescaped(raw) == [raw[1]] + Unescaped(raw[2..]);
    assert Unescaped(raw[2..]) == [raw[2]] + Unescaped(raw[3..]);
    assert Unescaped(raw[3..]) == [raw[3]] + Unescaped(raw[4..]);
    assert Unescaped(raw[4..]) == [raw[4]] + Unescaped(raw[5..]);
    assert Unescaped(raw[5..]) == [raw[5]] + Unescaped(raw[6..]);
  }

  lemma {:induction false} JsonIsShorter(raw: string)
    requires WellEscaped(raw)
    ensures |JsonCodes(raw)| <= |Unescaped(raw)|
    decreases |raw|
  {
    if raw != "" {
      if UnicodeEscape(raw) {
        UnescapedUnicode(raw);
        JsonIsShorter(raw[6..]);
      } else {
        JsonIsShorter(raw[if raw[0] == '\\' then 2 else 1..]);
      }
    }
  }

  /** The length of the character or short escape at the front. */
  function FrontLen(raw: string): nat {
    if raw != "" && raw[0] == '\\' then 2 else 1
  }

  /** What is copied for the front, and what it says. */
  function FrontCopied(raw: string): int
    requires WellEscaped(raw) && raw != ""
  {
    if raw[0] == '\\' then raw[1] as int else raw[0] as int
  }

  function FrontSays(raw: string): int
    requires WellEscaped(raw) && raw != ""
  {
    if raw[0] == '\\' then EscapeCode(raw[1]) else raw[0] as int
  }

  lemma CodesCons(c: char, s: string)
    ensures Codes([c] + s) == [c as int] + Codes(s)
  {
    assert ([c] + s)[1..] == s;
  }

  lemma Front(raw: string)
    requires WellEscaped(raw) && raw != "" && !UnicodeEscape(raw)
    ensures var k := FrontLen(raw);
      && k <= |raw| && WellEscaped(raw[k..])
      && Codes(Unescaped(raw)) == [FrontCopied(raw)] + Codes(Unescaped(raw[k..]))
      && JsonCodes(raw) == [FrontSays(raw)] + JsonCodes(raw[k..])
  {
    hide Codes;
    CodesCons(if raw[0] == '\\' then raw[1] else raw[0], Unescaped(raw[FrontLen(raw)..]));
  }

  lemma FrontPlain(raw: string)
    requires WellEscaped(raw) && raw != "" && !UnicodeEscape(raw)
    ensures PlainEscapes(raw) <==> FrontCopied(raw) == FrontSays(raw) && PlainEscapes(raw[FrontLen(raw)..])
  {
  }

  lemma SameCons(x: int, a: seq<int>, y: int, b: seq<int>)
    ensures [x] + a == [y] + b <==> x == y && a == b
  {
    if [x] + a == [y] + b {
      assert ([x] + a)[0] == ([y] + b)[0] && ([x] + a)[1..] == ([y] + b)[1..];
    }
  }

  /** The scanner drops the backslash of every escape; that is the JSON value exactly when all escapes stand for themselves. */
  lemma {:induction false} UnescapedIsJson(raw: string)
    requires WellEscaped(raw)
    ensures Codes(Unescaped(raw)) == JsonCodes(raw) <==> PlainEscapes(raw)
    decreases |raw|
  {
    if raw != "" {
      if UnicodeEscape(raw) {
        UnescapedUnicode(raw);
        JsonIsShorter(raw[6..]);
      } else {
        hide Codes, Unescaped, JsonCodes, PlainEscapes, WellEscaped, FrontCopied, FrontSays;
        var k := FrontLen(raw);
        Front(raw);
        FrontPlain(raw);
        UnescapedIsJson(raw[k..]);
        SameCons(FrontCopied(raw), Codes(Unescaped(raw[k..])), FrontSays(raw), JsonCodes(raw[k..]));
      }
    }
  }

  /** An escaped line feed is copied as the letter behind its backslash. */
  lemma LineFeedIsLost()
    ensures WellEscaped("\\n") && Unescaped("\\n") == "n" && JsonCodes("\\n") == [10]
  {
    assert "\\n"[2..] == "" && Unescaped("") == "" && JsonCodes("") == [];
  }

  /** What fits into a buffer of `size` characters with its terminator. */
  function Cut(s: string, size: nat): string
    requires size > 0
  {
    if |s| < size then s else s[..size - 1]
  }

  lemma {:induction false} ValueOf(raw: string, rest: string, cap: nat)
    requires Raw(raw)
    ensures Value(raw + "\"" + rest, cap) == Cut(Unescaped(raw), cap + 1)
    decreases |raw|
  {
    var t := raw + "\"" + rest;
    if raw != "" && cap > 0 {
      var k := if raw[0] == '\\' then 2 else 1;
      ValueOf(raw[k..], rest, cap - 1);
      assert t[k..] == raw[k..] + "\"" + rest;
    }
  }
}
