/** Which member of an object the release scanner's search for a quoted name finds. */
module FieldLookup {
  import opened Bytes
  import opened JsonPieces
  import opened Options
  import opened ReleaseScanner
  import opened TextSearch

  // ---- Fields -------------------------------------------------------------

  /** A key the scanner asks for: no quote, backslash or brace, and nothing that may stand behind a literal in front. */
  predicate Key(key: string) {
    && 0 < |key| <= 125 && !Closes(key[0])
    && forall i :: 0 <= i < |key| ==> key[i] != '"' && key[i] != '\\' && key[i] != '}'
  }

  /** The literal holds the quoted key: it is the key, or it ends in an escaped quote and the key. */
  predicate Mention(raw: string, key: string) {
    raw == key || (|raw| > |key| && raw[|raw| - |key| - 1..] == "\"" + key)
  }

  /** The string that comes next behind blanks and colons, if one does. */
  function Following(ps: seq<Piece>): Option<string> {
    if ps == [] then None
    else
      match ps[0]
      case Plain(c) => if Blank(c) || c == ':' then Following(ps[1..]) else None
      case Literal(raw) => Some(raw)
      case Nested(_) => None
  }

  /** What follows the first literal, at any depth, that holds the quoted key; nothing without one. */
  function Lookup(ps: seq<Piece>, key: string): Option<Option<string>>
    decreases ps
  {
    if ps == [] then None
    else
      match ps[0]
      case Plain(_) => Lookup(ps[1..], key)
      case Literal(raw) => if Mention(raw, key) then Some(Following(ps[1..])) else Lookup(ps[1..], key)
      case Nested(inside) => if Lookup(inside, key).Some? then Lookup(inside, key) else Lookup(ps[1..], key)
  }

  predicate Mentions(ps: seq<Piece>, key: string) {
    Lookup(ps, key).Some?
  }

  /** How a value looks in a buffer. */
  function Shown(v: Option<string>, size: nat): Option<string>
    requires size > 0
  {
    if v.Some? then Some(Cut(Unescaped(v.value), size)) else None
  }

  function MentionPos(raw: string, key: string): int {
    if raw == key then 0 else |raw| - |key|
  }

  /** The place of the first mention in the text. */
  function FirstMention(ps: seq<Piece>, key: string): int
    decreases ps
  {
    if ps == [] then 0
    else
      match ps[0]
      case Plain(_) => 1 + FirstMention(ps[1..], key)
      case Literal(raw) => if Mention(raw, key) then MentionPos(raw, key) else |raw| + 2 + FirstMention(ps[1..], key)
      case Nested(inside) => if Mentions(inside, key) then 1 + FirstMention(inside, key) else |Text(ps[0])| + FirstMention(ps[1..], key)
  }

  lemma {:induction false} RawSuffix(raw: string, n: nat)
    requires Raw(raw) && n <= |raw| && forall i :: 0 <= i < n ==> raw[i] != '\\'
    ensures Raw(raw[n..])
    decreases n
  {
    if n > 0 {
      RawSuffix(raw[1..], n - 1);
      assert raw[1..][n - 1..] == raw[n..];
    } else {
      assert raw[0..] == raw;
    }
  }

  /** A quote inside a literal is escaped, so what follows it is the inside of a literal again. */
  lemma {:induction false} RawBehindQuote(raw: string, j: nat)
    requires Raw(raw) && j < |raw| && raw[j] == '"'
    ensures Raw(raw[j + 1..])
    decreases |raw|
  {
    if raw[0] == '\\' {
      if j > 1 {
        RawBehindQuote(raw[2..], j - 2);
        assert raw[2..][j - 1..] == raw[j + 1..];
      }
    } else {
      RawBehindQuote(raw[1..], j - 1);
      assert raw[1..][j..] == raw[j + 1..];
    }
  }

  /** The key is not followed by a quote inside a literal. */
  lemma NoQuoteBehind(raw: string, key: string, i: nat)
    requires Raw(raw) && Key(key) && i + |key| < |raw| && raw[i..i + |key|] == key && (i == 0 || raw[i - 1] == '"')
    ensures raw[i + |key|] != '"'
  {
    if i > 0 { RawBehindQuote(raw, i - 1); } else { assert raw[0..] == raw; }
    var tail := raw[i..];
    forall n | 0 <= n < |key| ensures tail[n] != '\\' {
      assert tail[n] == raw[i..i + |key|][n];
    }
    RawSuffix(tail, |key|);
    assert tail[|key|..][0] == raw[i + |key|];
  }

  /** Where the quoted key occurs from inside a literal on. */
  lemma LiteralMatches(raw: string, u: string, key: string, i: nat)
    requires Raw(raw) && Key(key) && u != "" && u[0] != key[0] && i < |raw| + 2
    ensures MatchAt(Quoted(raw) + u, Quoted(key), i) <==> Mention(raw, key) && i == MentionPos(raw, key)
  {
    var t, q := Quoted(raw) + u, Quoted(key);
    if MatchAt(t, q, i) {
      LiteralMatch(raw, u, key, i);
    }
    if Mention(raw, key) && i == MentionPos(raw, key) {
      if raw == key { assert t[0..|q|] == q; } else { MentionMatches(raw, u, key); }
    }
  }

  lemma MentionMatches(raw: string, u: string, key: string)
    requires |raw| > |key| && raw[|raw| - |key| - 1..] == "\"" + key
    ensures MatchAt(Quoted(raw) + u, Quoted(key), |raw| - |key|)
  {
    var t, p := Quoted(raw) + u, |raw| - |key|;
    assert t == ("\"" + raw[..p - 1]) + ((raw[p - 1..] + "\"") + u) by { assert raw == raw[..p - 1] + raw[p - 1..]; }
    assert t[p..p + |key| + 2] == raw[p - 1..] + "\"";
    assert raw[p - 1..] + "\"" == Quoted(key);
  }

  lemma KeyAt(t: string, key: string, i: nat, pos: nat)
    requires MatchAt(t, Quoted(key), i)
    ensures i + |key| + 1 < |t| && t[i] == '"' && t[i + |key| + 1] == '"'
    ensures i < pos <= i + |key| ==> t[pos] == key[pos - i - 1]
  {
    var q := Quoted(key);
    MatchElement(t, q, i, 0);
    MatchElement(t, q, i, |key| + 1);
    if i < pos <= i + |key| { MatchElement(t, q, i, pos - i); }
  }

  /** The characters of an occurrence that starts inside the literal. */
  lemma MatchParts(raw: string, u: string, key: string, i: nat)
    requires Key(key) && u != "" && u[0] != key[0] && i < |raw| + 2 && MatchAt(Quoted(raw) + u, Quoted(key), i)
    ensures i + |key| <= |raw| && (i == 0 || raw[i - 1] == '"')
    ensures i + |key| < |raw| ==> raw[i + |key|] == '"'
    ensures raw[i..i + |key|] == key
  {
    hide MatchAt, Quoted;
    var t, n := Quoted(raw) + u, |key|;
    LiteralChar(raw, u, |raw|);
    KeyAt(t, key, i, |raw| + 1);
    KeyAt(t, key, i, i + 1);
    if i > 0 { LiteralChar(raw, u, i - 1); }
    if i + n < |raw| { LiteralChar(raw, u, i + n); }
    forall j | 0 <= j < n ensures raw[i + j] == key[j] {
      KeyAt(t, key, i, 1 + i + j);
      LiteralChar(raw, u, i + j);
    }
    SameSlice(raw, key, i);
  }

  /** The character of a literal behind its opening quote, and the one behind the literal. */
  lemma LiteralChar(raw: string, u: string, j: nat)
    requires u != ""
    ensures var t := Quoted(raw) + u;
      && |t| == |raw| + 2 + |u| && t[|raw| + 1] == '"' && t[|raw| + 2] == u[0]
      && (j < |raw| ==> t[1 + j] == raw[j])
  {
  }

  lemma SameSlice(s: string, m: string, i: nat)
    requires i + |m| <= |s| && forall j :: 0 <= j < |m| ==> s[i + j] == m[j]
    ensures s[i..i + |m|] == m
  {
  }

  lemma StartMention(raw: string, key: string)
    requires |raw| == |key| && raw[0..|key|] == key
    ensures Mention(raw, key) && MentionPos(raw, key) == 0
  {
    assert raw == raw[0..|key|];
  }

  lemma EndMention(raw: string, key: string, i: nat)
    requires 0 < i && i + |key| == |raw| && raw[i - 1] == '"' && raw[i..i + |key|] == key
    ensures Mention(raw, key) && MentionPos(raw, key) == i
  {
    assert raw[i - 1..] == [raw[i - 1]] + raw[i..i + |key|];
  }

  lemma LiteralMatch(raw: string, u: string, key: string, i: nat)
    requires Raw(raw) && Key(key) && u != "" && u[0] != key[0] && i < |raw| + 2
    requires MatchAt(Quoted(raw) + u, Quoted(key), i)
    ensures Mention(raw, key) && i == MentionPos(raw, key)
  {
    hide MatchAt, Raw, Key, Quoted, Mention, MentionPos;
    MatchParts(raw, u, key, i);
    if i + |key| < |raw| {
      NoQuoteBehind(raw, key, i);
    } else if i == 0 {
      StartMention(raw, key);
    } else {
      EndMention(raw, key, i);
    }
  }

  /** A blank or colon is passed over. */
  lemma SeparatorSkipped(c: char, u: string, size: nat)
    requires (Blank(c) || c == ':') && size > 0
    ensures StringAt([c] + u, size) == StringAt(u, size)
  {
    var t := [c] + u;
    assert t[1..] == u;
    assert t[Separators(t)..] == u[Separators(u)..];
  }

  /** Anything else but a quote ends the search for a string. */
  lemma NoString(t: string, size: nat)
    requires t != "" && !Blank(t[0]) && t[0] != ':' && t[0] != '"' && size > 0
    ensures StringAt(t, size) == None
  {
    assert t[0..] == t;
  }

  lemma StringHere(raw: string, u: string, size: nat)
    requires Raw(raw) && size > 0
    ensures StringAt(Quoted(raw) + u, size) == Some(Cut(Unescaped(raw), size))
  {
    hide Value, Unescaped, Raw;
    var t := Quoted(raw) + u;
    assert t[0] == '"' && t[0..] == t;
    assert t[1..] == raw + "\"" + u;
    ValueOf(raw, u, size - 1);
  }

  /** The value behind the name, read from the text, is the string that follows. */
  lemma {:induction false} FollowingText(ps: seq<Piece>, rest: string, size: nat)
    requires ValidAll(ps) && rest != "" && rest[0] == '}' && size > 0
    ensures StringAt(TextAll(ps) + rest, size) == Shown(Following(ps), size)
  {
    hide StringAt, Unescaped, Raw;
    if ps == [] {
      assert TextAll(ps) + rest == rest;
      NoString(rest, size);
    } else {
      var u := TextAll(ps[1..]) + rest;
      Assoc(Text(ps[0]), TextAll(ps[1..]), rest);
      match ps[0] {
        case Plain(c) =>
          if Blank(c) || c == ':' {
            FollowingText(ps[1..], rest, size);
            SeparatorSkipped(c, u, size);
          } else {
            NoString([c] + u, size);
          }
        case Literal(raw) => StringHere(raw, u, size);
        case Nested(_) => NoString(Text(ps[0]) + u, size);
      }
    }
  }

  /** The scanner's search in `t` stops at `k` and shows the value `v` there. */
  ghost predicate Meets(t: string, q: string, k: int, v: Option<string>, size: nat)
    requires size > 0
  {
    && MatchAt(t, q, k) && (forall i :: 0 <= i < k ==> !MatchAt(t, q, i))
    && 0 <= k && k + |q| <= |t| && StringAt(t[k + |q|..], size) == v
  }

  ghost predicate NoneTo(t: string, q: string, k: int) {
    forall i :: 0 <= i < k ==> !MatchAt(t, q, i)
  }

  /** The text `t` that starts with the pieces shows the scanner what the pieces say. */
  ghost predicate Reads(ps: seq<Piece>, t: string, key: string, size: nat)
    requires size > 0
  {
    var q, k := Quoted(key), FirstMention(ps, key);
    if Mentions(ps, key) then
      0 <= k < |TextAll(ps)| && Meets(t, q, k, Shown(Lookup(ps, key).value, size), size)
    else k == |TextAll(ps)| && NoneTo(t, q, k)
  }

  lemma MeetsBehind(h: string, u: string, q: string, k: nat, v: Option<string>, size: nat)
    requires size > 0 && NoneTo(h + u, q, |h|)
    ensures Meets(u, q, k, v, size) ==> Meets(h + u, q, |h| + k, v, size)
    ensures NoneTo(u, q, k) ==> NoneTo(h + u, q, |h| + k)
  {
    hide MatchAt, StringAt;
    if NoneTo(u, q, k) {
      NoneBefore(h, u, q, k);
    }
    if Meets(u, q, k, v, size) {
      MatchShifts(h, u, q, k);
      Suffix(h + u, |h|, k + |q|);
      assert (h + u)[|h|..] == u;
    }
  }

  lemma TextAllLength(ps: seq<Piece>)
    requires ps != []
    ensures |TextAll(ps)| == |Text(ps[0])| + |TextAll(ps[1..])|
  {
    hide Text;
  }

  /** A head without a mention is passed over. */
  lemma HeadSkipped(ps: seq<Piece>, u: string, key: string, size: nat)
    requires ps != [] && size > 0 && Reads(ps[1..], u, key, size)
    requires Lookup(ps, key) == Lookup(ps[1..], key) && FirstMention(ps, key) == |Text(ps[0])| + FirstMention(ps[1..], key)
    requires NoneTo(Text(ps[0]) + u, Quoted(key), |Text(ps[0])|)
    ensures Reads(ps, Text(ps[0]) + u, key, size)
  {
    hide Meets, NoneTo, Text, TextAll, Lookup, FirstMention, Quoted, Shown;
    TextAllLength(ps);
    var h, q, k := Text(ps[0]), Quoted(key), FirstMention(ps[1..], key);
    if Mentions(ps, key) {
      MeetsBehind(h, u, q, k, Shown(Lookup(ps, key).value, size), size);
    } else {
      MeetsBehind(h, u, q, k, None, size);
    }
  }

  lemma PlainHead(ps: seq<Piece>, u: string, key: string, size: nat)
    requires ValidAll(ps) && ps != [] && ps[0].Plain? && size > 0 && Reads(ps[1..], u, key, size)
    ensures Reads(ps, Text(ps[0]) + u, key, size)
  {
    hide Reads, MatchAt;
    NoMatchAt(Text(ps[0]) + u, Quoted(key), 0);
    HeadSkipped(ps, u, key, size);
  }

  lemma LiteralHead(ps: seq<Piece>, u: string, key: string, size: nat)
    requires ValidAll(ps) && Key(key) && ps != [] && ps[0].Literal? && size > 0 && Reads(ps[1..], u, key, size)
    requires u != "" && u[0] != key[0] && StringAt(u, size) == Shown(Following(ps[1..]), size)
    ensures Reads(ps, Text(ps[0]) + u, key, size)
  {
    hide MatchAt, StringAt, Unescaped, Mention, Key, ValidAll, Raw;
    var raw, t := ps[0].raw, Quoted(ps[0].raw) + u;
    assert Raw(raw) by { ValidLiteral(ps); }
    forall i | 0 <= i < |raw| + 2
      ensures MatchAt(t, Quoted(key), i) <==> Mention(raw, key) && i == MentionPos(raw, key)
    {
      LiteralMatches(raw, u, key, i);
    }
    if Mention(raw, key) {
      MentionInside(raw, key);
      assert t[|raw| + 2..] == u;
      assert TextAll(ps) == Quoted(raw) + TextAll(ps[1..]);
    } else {
      hide Reads;
      HeadSkipped(ps, u, key, size);
    }
  }

  lemma ValidLiteral(ps: seq<Piece>)
    requires ValidAll(ps) && ps != [] && ps[0].Literal?
    ensures Raw(ps[0].raw)
  {
  }

  lemma MentionInside(raw: string, key: string)
    requires Mention(raw, key)
    ensures 0 <= MentionPos(raw, key) && MentionPos(raw, key) + |Quoted(key)| == |raw| + 2
  {
  }

  lemma NestedHead(ps: seq<Piece>, u: string, key: string, size: nat)
    requires Key(key) && ps != [] && ps[0].Nested? && size > 0 && Reads(ps[1..], u, key, size)
    requires Reads(ps[0].inside, TextAll(ps[0].inside) + ("}" + u), key, size)
    ensures Reads(ps, Text(ps[0]) + u, key, size)
  {
    hide MatchAt, StringAt, Unescaped, Mention, TextAll;
    var h, q := Text(ps[0]), Quoted(key);
    var inner := TextAll(ps[0].inside);
    var v := inner + ("}" + u);
    assert h + u == "{" + v && h == "{" + inner + "}";
    var k := FirstMention(ps[0].inside, key);
    NoMatchAt("{" + v, q, 0);
    NoneBefore("{", v, q, k);
    if Mentions(ps[0].inside, key) {
      MatchShifts("{", v, q, k);
      Suffix("{" + v, 1, k + |q|);
      assert ("{" + v)[1..] == v;
      TextOfHead(ps);
    } else {
      assert (h + u)[|inner| + 1] == '}';
      NoMatchAt(h + u, q, |inner| + 1);
      HeadSkipped(ps, u, key, size);
    }
  }

  lemma TextOfHead(ps: seq<Piece>)
    requires ps != []
    ensures TextAll(ps) == Text(ps[0]) + TextAll(ps[1..])
  {
  }

  /** Behind a literal the text does not start like a key. */
  lemma BehindLiteral(ps: seq<Piece>, rest: string, key: string)
    requires ValidAll(ps) && Key(key) && ps != [] && ps[0].Literal? && rest != "" && rest[0] == '}'
    ensures var u := TextAll(ps[1..]) + rest; u != "" && u[0] != key[0]
  {
    if |ps| > 1 {
      assert ps[1..][0] == ps[1];
      assert TextAll(ps[1..]) == [ps[1].c] + TextAll(ps[1..][1..]);
    }
  }

  /** What the scanner finds in the text of an object is what the object's pieces say, however they nest. */
  lemma {:induction false} LookupText(ps: seq<Piece>, rest: string, key: string, size: nat)
    requires ValidAll(ps) && Key(key) && rest != "" && rest[0] == '}' && size > 0
    ensures Reads(ps, TextAll(ps) + rest, key, size)
    decreases ps
  {
    if ps == [] {
      NothingReads(rest, key, size);
    } else {
      hide Reads, StringAt, Key, Raw, Text;
      var u := TextAll(ps[1..]) + rest;
      Assoc(Text(ps[0]), TextAll(ps[1..]), rest);
      LookupText(ps[1..], rest, key, size);
      if ps[0].Plain? {
        PlainHead(ps, u, key, size);
      } else if ps[0].Literal? {
        BehindLiteral(ps, rest, key);
        FollowingText(ps[1..], rest, size);
        LiteralHead(ps, u, key, size);
      } else {
        LookupText(ps[0].inside, "}" + u, key, size);
        NestedHead(ps, u, key, size);
      }
    }
  }

  lemma NothingReads(rest: string, key: string, size: nat)
    requires size > 0
    ensures Reads([], TextAll([]) + rest, key, size)
  {
  }

  /**
    The field lookup in an object, whatever text follows: the string behind the first
    literal at any depth that holds the quoted key; without one, the lookup goes on behind
    the object.
   */
  lemma FieldLookup(inside: seq<Piece>, rest: string, key: string, size: nat)
    requires ValidAll(inside) && Key(key) && size > 0
    ensures FindString(Text(Nested(inside)) + rest, key, size)
         == if Mentions(inside, key) then Shown(Lookup(inside, key).value, size) else FindString(rest, key, size)
    ensures Mentions(inside, key) ==> FirstMention(inside, key) >= 0
    ensures FirstFrom(Text(Nested(inside)), Quoted(key), 0) == if Mentions(inside, key) then 1 + FirstMention(inside, key) else -1
  {
    hide MatchAt, StringAt, Unescaped, Mention, TextAll, FirstFrom, ValidAll, Lookup, FirstMention;
    InObject(inside, rest, key, size);
    InObject(inside, "", key, size);
    var o := Text(Nested(inside));
    assert o + "" == o;
    if !Mentions(inside, key) {
      LackingFieldReadsOn(o, key, rest, size);
    }
  }

  lemma InObject(inside: seq<Piece>, rest: string, key: string, size: nat)
    requires ValidAll(inside) && Key(key) && size > 0
    ensures var t, q, k := Text(Nested(inside)) + rest, Quoted(key), FirstMention(inside, key);
      if Mentions(inside, key) then
        k >= 0 && FirstFrom(t, q, 0) == 1 + k && FindString(t, key, size) == Shown(Lookup(inside, key).value, size)
      else rest == "" ==> FirstFrom(t, q, 0) == -1
  {
    hide MatchAt, StringAt, Unescaped, Mention, TextAll, FirstFrom, ValidAll, Lookup, FirstMention;
    var t, q, k := Text(Nested(inside)) + rest, Quoted(key), FirstMention(inside, key);
    var inner := TextAll(inside);
    var v := inner + ("}" + rest);
    assert t == "{" + v && t[1..] == v;
    LookupText(inside, "}" + rest, key, size);
    NoMatchAt(t, q, 0);
    NoneBefore("{", v, q, k);
    if Mentions(inside, key) {
      MatchShifts("{", v, q, k);
      FirstIs(t, q, 1 + k);
      Suffix(t, 1, k + |q|);
    } else if rest == "" {
      assert t[|inner| + 1] == '}';
      NoMatchAt(t, q, |inner| + 1);
      forall i: nat ensures !MatchAt(t, q, i) {
        if i > |inner| + 1 { TooLate(t, q, i); }
      }
      FirstNowhere(t, q);
    }
  }

  // ---- Members of the object itself ---------------------------------------

  /** A colon is among the blanks and colons in front. */
  predicate HasColon(ps: seq<Piece>) {
    ps != [] && ps[0].Plain? && (ps[0].c == ':' || (Blank(ps[0].c) && HasColon(ps[1..])))
  }

  /** Piece `k` of the object is the name of a member of its own, with a string for its value. */
  predicate StringMember(inside: seq<Piece>, k: nat, key: string) {
    k < |inside| && inside[k] == Literal(key) && HasColon(inside[k + 1..]) && Following(inside[k + 1..]).Some?
  }

  function MemberValue(inside: seq<Piece>, k: nat, key: string): string
    requires StringMember(inside, k, key)
  {
    Following(inside[k + 1..]).value
  }

  /** A string stops what follows, so nothing behind it matters. */
  lemma {:induction false} FollowingStops(ps: seq<Piece>, j: nat)
    requires j < |ps| && ps[j].Literal?
    ensures Following(ps[..j + 1]) == Following(ps)
  {
    if j > 0 {
      FollowingStops(ps[1..], j - 1);
      assert ps[..j + 1][1..] == ps[1..][..j];
    }
  }

  /** An earlier mention decides alone. */
  lemma {:induction false} EarlierDecides(ps: seq<Piece>, k: nat, key: string)
    requires k < |ps| && ps[k].Literal?
    ensures Mentions(ps[..k], key) ==> Mentions(ps, key) && Lookup(ps, key) == Lookup(ps[..k + 1], key)
    ensures !Mentions(ps[..k], key) && ps[k] == Literal(key) ==>
      Lookup(ps, key) == Some(Following(ps[k + 1..])) && FirstMention(ps, key) == |TextAll(ps[..k])|
  {
    if k == 0 {
      assert ps[..0] == [];
    } else {
      var rest := ps[1..];
      assert ps[..k][1..] == rest[..k - 1] && ps[..k + 1][1..] == rest[..k] && ps[k + 1..] == rest[k..];
      assert ps[..k][0] == ps[0] && ps[..k + 1][0] == ps[0];
      EarlierDecides(rest, k - 1, key);
      FollowingStops(rest, k - 1);
    }
  }

  /** No literal in front of the member, at any depth, holds the quoted key, or the first that does is followed by a string that looks the same. */
  predicate Leads(inside: seq<Piece>, k: nat, key: string, size: nat)
    requires size > 0 && StringMember(inside, k, key)
  {
    !Mentions(inside[..k], key)
    || (Lookup(inside[..k + 1], key).Some?
        && Shown(Lookup(inside[..k + 1], key).value, size) == Shown(Some(MemberValue(inside, k, key)), size))
  }

  /** A member of the object is what the lookup gives exactly when it leads; otherwise an earlier literal decides. */
  lemma MemberFound(inside: seq<Piece>, k: nat, rest: string, key: string, size: nat)
    requires ValidAll(inside) && Key(key) && size > 0 && StringMember(inside, k, key)
    ensures FindString(Text(Nested(inside)) + rest, key, size) == Shown(Some(MemberValue(inside, k, key)), size)
       <==> Leads(inside, k, key, size)
  {
    hide Text, FindString, Lookup, Following, Unescaped, ValidAll, FirstMention, HasColon;
    EarlierDecides(inside, k, key);
    FieldLookup(inside, rest, key, size);
  }

  lemma KeysAreKeys()
    ensures Key("tag_name") && Key("published_at") && Key("assets")
  {
  }

  /** One piece in front of others. */
  lemma Cons(p: Piece, ps: seq<Piece>, key: string)
    ensures ValidAll([p] + ps) <==> Valid(p) && ValidAll(ps) && (p.Literal? && ps != [] ==> ps[0].Plain? && Closes(ps[0].c))
    ensures p.Plain? ==> Lookup([p] + ps, key) == Lookup(ps, key)
    ensures p.Literal? ==> Lookup([p] + ps, key) == if Mention(p.raw, key) then Some(Following(ps)) else Lookup(ps, key)
    ensures p.Nested? ==> Lookup([p] + ps, key) == if Lookup(p.inside, key).Some? then Lookup(p.inside, key) else Lookup(ps, key)
    ensures p.Plain? && (Blank(p.c) || p.c == ':') ==> Following([p] + ps) == Following(ps)
    ensures p.Literal? ==> Following([p] + ps) == Some(p.raw)
  {
    assert ([p] + ps)[1..] == ps;
  }

  lemma NoPieces(key: string)
    ensures ValidAll([]) && Lookup([], key) == None && Following([]) == None
  {
  }

  /** A member `"tag_name":"..."`. */
  function TagMember(raw: string): seq<Piece> {
    [Literal("tag_name")] + ([Plain(':')] + ([Literal(raw)] + []))
  }

  lemma TagMemberReads(raw: string)
    requires Raw(raw)
    ensures ValidAll(TagMember(raw)) && Lookup(TagMember(raw), "tag_name") == Some(Some(raw))
    ensures StringMember(TagMember(raw), 0, "tag_name") && MemberValue(TagMember(raw), 0, "tag_name") == raw
  {
    hide ValidAll, Lookup, Following, Raw, Mention;
    var value := [Literal(raw)] + [];
    NoPieces("tag_name");
    Cons(Literal(raw), [], "tag_name");
    Cons(Plain(':'), value, "tag_name");
    Cons(Literal("tag_name"), [Plain(':')] + value, "tag_name");
    assert Mention("tag_name", "tag_name") by { SameMentions("tag_name"); }
    assert Raw("tag_name") by { PlainRaw(); }
  }

  lemma SameMentions(key: string)
    ensures Mention(key, key)
  {
  }

  lemma PlainRaw()
    ensures Raw("tag_name") && Raw("x") && Raw("a") && Raw("b") && Raw("v") && !Mention("x", "tag_name")
    ensures Unescaped("a") == "a" && Unescaped("v") == "v"
  {
    assert "a"[1..] == "" && "v"[1..] == "" && Unescaped("") == "";
  }

  /** The object `{"x":{"tag_name":"a"},"tag_name":"b"}`. */
  function Shadowed(): seq<Piece> {
    [Literal("x")] + ([Plain(':')] + ([Nested(TagMember("a"))] + ([Plain(',')] + TagMember("b"))))
  }

  lemma ShadowedReads()
    ensures var ps := Shadowed();
      ValidAll(ps) && StringMember(ps, 4, "tag_name") && MemberValue(ps, 4, "tag_name") == "b"
      && Lookup(ps, "tag_name") == Some(Some("a"))
  {
    hide ValidAll, Lookup, Following, Raw, Mention, HasColon, TagMember;
    PlainRaw();
    TagMemberReads("a");
    TagMemberReads("b");
    var tail := [Plain(',')] + TagMember("b");
    var nested := [Nested(TagMember("a"))] + tail;
    Cons(Plain(','), TagMember("b"), "tag_name");
    Cons(Nested(TagMember("a")), tail, "tag_name");
    Cons(Plain(':'), nested, "tag_name");
    Cons(Literal("x"), [Plain(':')] + nested, "tag_name");
    MemberBehind([Literal("x"), Plain(':'), Nested(TagMember("a")), Plain(',')], TagMember("b"), "tag_name");
    assert Shadowed() == [Literal("x"), Plain(':'), Nested(TagMember("a")), Plain(',')] + TagMember("b");
  }

  lemma MemberBehind(front: seq<Piece>, ps: seq<Piece>, key: string)
    requires StringMember(ps, 0, key)
    ensures StringMember(front + ps, |front|, key) && MemberValue(front + ps, |front|, key) == MemberValue(ps, 0, key)
  {
    assert (front + ps)[|front| + 1..] == ps[1..];
  }

  /** Its tag is "b", and the scanner takes "a" from the nested object in front. */
  lemma NestedTagWins(rest: string)
    ensures StringMember(Shadowed(), 4, "tag_name") && MemberValue(Shadowed(), 4, "tag_name") == "b"
    ensures FindString(Text(Nested(Shadowed())) + rest, "tag_name", TAG_SIZE) == Some("a")
  {
    hide Shadowed, FindString, Lookup, Following, Text, FirstMention, ValidAll, Unescaped, Key, StringMember;
    ShadowedReads();
    KeysAreKeys();
    PlainRaw();
    FieldLookup(Shadowed(), rest, "tag_name", TAG_SIZE);
  }

  // ---- Objects without the field ------------------------------------------

  /** The lookup does not stop at the object: a field it lacks is taken from the text behind it. */
  lemma LackingFieldReadsOn(o: string, key: string, rest: string, size: nat)
    requires o != "" && o[|o| - 1] == '}' && '}' !in key && FirstFrom(o, Quoted(key), 0) == -1 && size > 0
    ensures FindString(o + rest, key, size) == FindString(rest, key, size)
  {
    hide FirstFrom, StringAt, MatchAt;
    var q := Quoted(key);
    FirstInside(o, rest, q);
    var k, l := FirstFrom(o + rest, q, 0), FirstFrom(rest, q, 0);
    if l != -1 {
      MatchFits(rest, q, l);
      MatchShifts(o, rest, q, l);
    }
    if k != -1 {
      MatchShifts(o, rest, q, k - |o|);
      assert k == |o| + l;
      Suffix(o + rest, |o|, l + |q|);
      assert (o + rest)[|o|..] == rest;
    }
  }

  lemma OwnTag()
    ensures var t := Text(Nested(TagMember("v")));
      FindString(t, "tag_name", TAG_SIZE) == Some("v") && FirstFrom(t, Quoted("tag_name"), 0) != -1
  {
    hide TagMember, FindString, Lookup, Following, Text, FirstMention, ValidAll, Unescaped, Key, FirstFrom;
    KeysAreKeys();
    PlainRaw();
    TagMemberReads("v");
    FieldLookup(TagMember("v"), "", "tag_name", TAG_SIZE);
    var t := Text(Nested(TagMember("v")));
    assert t + "" == t;
  }

  lemma EmptyObject(rest: string)
    ensures FindString(Text(Nested([])) + rest, "tag_name", TAG_SIZE) == FindString(rest, "tag_name", TAG_SIZE)
  {
    hide FindString, Lookup, Following, Text, FirstMention, ValidAll, Key, FirstFrom;
    KeysAreKeys();
    NoPieces("tag_name");
    FieldLookup([], rest, "tag_name", TAG_SIZE);
  }

  /** The empty object in front of another takes that one's tag. */
  lemma NextTagTaken()
    ensures FindString(Text(Nested([])) + ("," + Text(Nested(TagMember("v")))), "tag_name", TAG_SIZE) == Some("v")
  {
    hide TagMember, FindString, Text, FirstFrom;
    var next := Text(Nested(TagMember("v")));
    OwnTag();
    EmptyObject("," + next);
    CommaSkipped(next);
  }

  lemma CommaSkipped(t: string)
    requires FirstFrom(t, Quoted("tag_name"), 0) != -1
    ensures FindString("," + t, "tag_name", TAG_SIZE) == FindString(t, "tag_name", TAG_SIZE)
  {
    hide FirstFrom, StringAt, MatchAt;
    var q, all := Quoted("tag_name"), "," + t;
    var k := FirstFrom(t, q, 0);
    MatchFits(t, q, k);
    MatchShifts(",", t, q, k);
    NoMatchAt(all, q, 0);
    FirstMeans(t, q, k);
    NoneBefore(",", t, q, k);
    FirstIs(all, q, 1 + k);
    Suffix(all, 1, k + |q|);
    assert all[1..] == t;
  }
}
