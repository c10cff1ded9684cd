/** When the release scanner takes a release to be without assets. */
module AssetLookup {
  import opened Bytes
  import opened FieldLookup
  import opened JsonPieces
  import opened Options
  import opened ReleaseScanner
  import opened TextSearch

  // ---- The first bracket of a text ----------------------------------------

  /** Whether the first opening bracket opens an empty array; nothing without a bracket. */
  function Opened(t: string): Option<bool> {
    if t == "" then None else if t[0] == '[' then Some(ClosesHere(t[1..])) else Opened(t[1..])
  }

  /** This is what the scanner looks at behind the quoted name. */
  lemma {:induction false} OpenedIs(t: string)
    ensures var m := FirstFrom(t, "[", 0);
      if m == -1 then Opened(t) == None else 0 <= m < |t| && Opened(t) == Some(ClosesHere(t[m + 1..]))
  {
    hide ClosesHere, FirstFrom;
    if t == "" {
      FirstNowhere(t, "[");
    } else if t[0] == '[' {
      assert t[0..1] == "[";
      FirstIs(t, "[", 0);
    } else {
      OpenedIs(t[1..]);
      OneLater(t);
      var m := FirstFrom(t[1..], "[", 0);
      if m != -1 { assert t[1..][m + 1..] == t[m + 2..]; }
    }
  }

  lemma OneLater(t: string)
    requires t != "" && t[0] != '['
    ensures var m := FirstFrom(t[1..], "[", 0); FirstFrom(t, "[", 0) == if m == -1 then -1 else m + 1
  {
    hide FirstFrom, MatchAt;
    var u, m := t[1..], FirstFrom(t[1..], "[", 0);
    assert t == [t[0]] + u;
    NoMatchAt(t, "[", 0);
    if m == -1 {
      forall i: nat ensures !MatchAt(t, "[", i) {
        if i > 0 { MatchShifts([t[0]], u, "[", i - 1); }
      }
      FirstNowhere(t, "[");
    } else {
      FirstMeans(u, "[", m);
      MatchShifts([t[0]], u, "[", m);
      NoneBefore([t[0]], u, "[", m);
      FirstIs(t, "[", m + 1);
    }
  }

  /** A part that ends in neither a blank nor a bracket decides alone, or leaves it to what follows. */
  lemma {:induction false} OpenedInFront(a: string, u: string)
    requires a != "" && !Blank(a[|a| - 1]) && a[|a| - 1] != '['
    ensures Opened(a + u) == if Opened(a).Some? then Opened(a) else Opened(u)
  {
    hide ClosesHere;
    assert (a + u)[1..] == a[1..] + u;
    if a[0] == '[' {
      ClosesInFront(a[1..], u);
    } else if |a| == 1 {
      assert a[1..] + u == u;
    } else {
      OpenedInFront(a[1..], u);
    }
  }

  lemma ClosesInFront(a: string, u: string)
    requires a != "" && !Blank(a[|a| - 1])
    ensures ClosesHere(a + u) <==> ClosesHere(a)
  {
    BlanksInside(a, u);
  }

  lemma {:induction false} BlanksInside(t: string, rest: string)
    requires t != "" && !Blank(t[|t| - 1])
    ensures Blanks(t) < |t| && Blanks(t + rest) == Blanks(t)
  {
    if Blank(t[0]) {
      BlanksInside(t[1..], rest);
      assert (t + rest)[1..] == t[1..] + rest;
    }
  }

  /** Whether a release has an empty list of assets, in terms of its own text. */
  lemma NoAssetsIs(o: string)
    ensures var k := FirstFrom(o, Quoted("assets"), 0);
      -1 <= k <= |o| && (NoAssets(o, |o|) <==> k != -1 && Opened(o[k..]) == Some(true))
  {
    hide FirstFrom, ClosesHere, Quoted, MatchAt, Opened;
    var k := FirstFrom(o, Quoted("assets"), 0);
    if k != -1 {
      MatchFits(o, Quoted("assets"), k);
      OpenedIs(o[k..]);
    }
  }

  /** Whether a release has an empty list of assets is decided by its own text. */
  lemma AssetsAreLocal(o: string, rest: string)
    requires o != "" && o[|o| - 1] == '}'
    ensures NoAssets(o + rest, |o|) <==> NoAssets(o, |o|)
  {
    var q := Quoted("assets");
    assert q != "" && '}' !in q;
    hide FirstFrom, ClosesHere, MatchAt, Quoted;
    FirstInside(o, rest, q);
    var k := FirstFrom(o, q, 0);
    if k != -1 {
      DropInside(o, rest, k);
      BracketIsLocal(o[k..], rest);
    }
  }

  lemma DropInside(a: string, rest: string, k: nat)
    requires k < |a|
    ensures (a + rest)[k..] == a[k..] + rest && a[k..] != "" && a[k..][|a| - k - 1] == a[|a| - 1]
  {
  }

  lemma BracketIsLocal(u: string, rest: string)
    requires u != "" && u[|u| - 1] == '}'
    ensures var m, n := FirstFrom(u, "[", 0), FirstFrom(u + rest, "[", 0);
      && -1 <= m && -1 <= n && (m == -1 <==> n == -1 || n >= |u|)
      && (m != -1 ==> m == n && m + 1 < |u| && (ClosesHere((u + rest)[n + 1..]) <==> ClosesHere(u[m + 1..])))
  {
    hide FirstFrom, ClosesHere, MatchAt;
    FirstInside(u, rest, "[");
    var m := FirstFrom(u, "[", 0);
    if m != -1 {
      DropInside(u, rest, m + 1);
      ClosesInFront(u[m + 1..], rest);
    }
  }

  // ---- The first bracket of an object's pieces ----------------------------

  /** The pieces behind the blanks and colons in front. */
  function PastSeparators(ps: seq<Piece>): (r: seq<Piece>)
    ensures r == [] || !(r[0].Plain? && (Blank(r[0].c) || r[0].c == ':'))
  {
    if ps != [] && ps[0].Plain? && (Blank(ps[0].c) || ps[0].c == ':') then PastSeparators(ps[1..]) else ps
  }

  function PastBlanks(ps: seq<Piece>): (r: seq<Piece>)
    ensures r == [] || !(r[0].Plain? && Blank(r[0].c))
  {
    if ps != [] && ps[0].Plain? && Blank(ps[0].c) then PastBlanks(ps[1..]) else ps
  }

  /** Piece `k` of the object is the name of a member of its own, with an array for its value. */
  predicate ArrayMember(inside: seq<Piece>, k: nat, key: string) {
    k < |inside| && inside[k] == Literal(key) && HasColon(inside[k + 1..])
    && var r := PastSeparators(inside[k + 1..]); r != [] && r[0] == Plain('[')
  }

  /** The array has no element. */
  predicate EmptyArray(inside: seq<Piece>, k: nat, key: string)
    requires ArrayMember(inside, k, key)
  {
    var r := PastBlanks(PastSeparators(inside[k + 1..])[1..]);
    r != [] && r[0] == Plain(']')
  }

  /** What the first bracket in the pieces opens, at any depth and inside literals too. */
  function OpensEmpty(ps: seq<Piece>): Option<bool>
    decreases ps
  {
    if ps == [] then None
    else
      match ps[0]
      case Plain(c) =>
        var r := PastBlanks(ps[1..]);
        if c == '[' then Some(r != [] && r[0] == Plain(']')) else OpensEmpty(ps[1..])
      case Literal(raw) => var o := Opened(raw + "\""); if o.Some? then o else OpensEmpty(ps[1..])
      case Nested(inside) => if OpensEmpty(inside).Some? then OpensEmpty(inside) else OpensEmpty(ps[1..])
  }

  /** What the first bracket behind the first mention of the name opens; nothing without a mention or a bracket behind it. */
  function AssetsShown(ps: seq<Piece>): Option<bool>
    decreases ps
  {
    if ps == [] then None
    else
      match ps[0]
      case Plain(_) => AssetsShown(ps[1..])
      case Literal(raw) => if Mention(raw, "assets") then OpensEmpty(ps[1..]) else AssetsShown(ps[1..])
      case Nested(inside) =>
        if !Mentions(inside, "assets") then AssetsShown(ps[1..])
        else if AssetsShown(inside).Some? then AssetsShown(inside)
        else OpensEmpty(ps[1..])
  }

  /** What may stand behind the pieces: neither blank nor bracket. */
  predicate Bounded(rest: string) {
    rest != "" && !Blank(rest[0]) && rest[0] != ']'
  }

  lemma {:induction false} BlanksText(ps: seq<Piece>) returns (blanks: string)
    ensures TextAll(ps) == blanks + TextAll(PastBlanks(ps)) && Blanks(blanks) == |blanks|
  {
    if ps != [] && ps[0].Plain? && Blank(ps[0].c) {
      var more := BlanksText(ps[1..]);
      blanks := [ps[0].c] + more;
      assert blanks[1..] == more;
      Assoc([ps[0].c], more, TextAll(PastBlanks(ps)));
    } else {
      blanks := "";
      assert "" + TextAll(ps) == TextAll(ps);
    }
  }

  lemma {:induction false} BlanksThen(blanks: string, behind: string)
    requires Blanks(blanks) == |blanks| && behind != "" && !Blank(behind[0])
    ensures Blanks(blanks + behind) == |blanks|
  {
    if blanks == "" {
      assert blanks + behind == behind;
    } else {
      BlanksThen(blanks[1..], behind);
      assert (blanks + behind)[1..] == blanks[1..] + behind;
    }
  }

  /** Blanks and a closing bracket in the pieces' text are blanks and a closing bracket among the pieces. */
  lemma ClosesText(ps: seq<Piece>, rest: string)
    requires ValidAll(ps) && Bounded(rest)
    ensures var r := PastBlanks(ps);
      ClosesHere(TextAll(ps) + rest) <==> r != [] && r[0] == Plain(']')
  {
    hide Blanks, ValidAll;
    var blanks := BlanksText(ps);
    var r := PastBlanks(ps);
    var behind := TextAll(r) + rest;
    Assoc(blanks, TextAll(r), rest);
    FirstOf(r, rest);
    BlanksThen(blanks, behind);
    assert (blanks + behind)[|blanks|] == behind[0];
  }

  lemma FirstOf(r: seq<Piece>, rest: string)
    requires Bounded(rest) && (r == [] || !(r[0].Plain? && Blank(r[0].c)))
    ensures var behind := TextAll(r) + rest;
      behind != "" && !Blank(behind[0]) && (behind[0] == ']' <==> r != [] && r[0] == Plain(']'))
  {
    if r != [] {
      HeadOf(r);
    }
  }

  lemma HeadOf(r: seq<Piece>)
    requires r != []
    ensures TextAll(r) != "" && TextAll(r)[0] == if r[0].Plain? then r[0].c else if r[0].Literal? then '"' else '{'
  {
  }

  lemma {:induction false} OpenedText(ps: seq<Piece>, rest: string)
    requires ValidAll(ps) && Bounded(rest)
    ensures Opened(TextAll(ps) + rest) == if OpensEmpty(ps).Some? then OpensEmpty(ps) else Opened(rest)
    decreases ps
  {
    hide Opened, ClosesHere, PastBlanks, Bounded;
    if ps == [] {
      assert TextAll(ps) + rest == rest;
    } else {
      var u := TextAll(ps[1..]) + rest;
      Assoc(Text(ps[0]), TextAll(ps[1..]), rest);
      OpenedText(ps[1..], rest);
      match ps[0] {
        case Plain(c) =>
          ClosesText(ps[1..], rest);
          OpenedCons(c, u);
        case Literal(raw) => OpenedLiteral(raw, u);
        case Nested(inside) =>
          OpenedText(inside, "}" + u) by { Brace(u); }
          OpenedNested(TextAll(inside), u);
      }
    }
  }

  lemma Brace(u: string)
    ensures Bounded("}" + u)
  {
  }

  lemma OpenedCons(c: char, u: string)
    ensures Opened([c] + u) == if c == '[' then Some(ClosesHere(u)) else Opened(u)
  {
    assert ([c] + u)[1..] == u;
  }

  lemma OpenedLiteral(raw: string, u: string)
    ensures Opened(Quoted(raw) + u) == if Opened(raw + "\"").Some? then Opened(raw + "\"") else Opened(u)
  {
    hide Opened;
    assert Quoted(raw) + u == ['"'] + (raw + "\"" + u);
    OpenedCons('"', raw + "\"" + u);
    OpenedInFront(raw + "\"", u);
  }

  lemma OpenedNested(inner: string, u: string)
    ensures Opened("{" + inner + "}" + u) == Opened(inner + ("}" + u)) && Opened("}" + u) == Opened(u)
  {
    hide Opened;
    assert "{" + inner + "}" + u == ['{'] + (inner + ("}" + u));
    OpenedCons('{', inner + ("}" + u));
    OpenedCons('}', u);
  }

  /** From the first mention on, the text shows what the pieces say. */
  lemma {:induction false} ShownText(ps: seq<Piece>, rest: string)
    requires ValidAll(ps) && Bounded(rest) && Mentions(ps, "assets")
    ensures 0 <= FirstMention(ps, "assets") <= |TextAll(ps)|
    ensures Opened((TextAll(ps) + rest)[FirstMention(ps, "assets")..]) == if AssetsShown(ps).Some? then AssetsShown(ps) else Opened(rest)
    decreases ps
  {
    hide Opened, OpensEmpty, Bounded, Mention;
    var u := TextAll(ps[1..]) + rest;
    Assoc(Text(ps[0]), TextAll(ps[1..]), rest);
    if ps[0].Literal? && Mention(ps[0].raw, "assets") {
      ShownLiteral(ps[0].raw, u);
      OpenedText(ps[1..], rest);
    } else if ps[0].Nested? && Mentions(ps[0].inside, "assets") {
      var inside := ps[0].inside;
      ShownText(inside, "}" + u) by { Brace(u); }
      OpenedText(ps[1..], rest);
      OpenedNested("", u);
      Within(TextAll(inside), u, FirstMention(inside, "assets"));
    } else {
      ShownText(ps[1..], rest);
      Behind(Text(ps[0]), u, FirstMention(ps[1..], "assets"));
    }
  }

  lemma Within(inner: string, u: string, k: nat)
    requires k <= |inner|
    ensures ("{" + inner + "}" + u)[1 + k..] == (inner + ("}" + u))[k..]
  {
  }

  lemma Behind(h: string, u: string, k: nat)
    requires k <= |u|
    ensures (h + u)[|h| + k..] == u[k..]
  {
  }

  lemma ShownLiteral(raw: string, u: string)
    requires Mention(raw, "assets")
    ensures 0 <= MentionPos(raw, "assets") <= |Quoted(raw)| && Opened((Quoted(raw) + u)[MentionPos(raw, "assets")..]) == Opened(u)
  {
    hide Opened;
    var p := MentionPos(raw, "assets");
    NameSuffix(raw, u);
    OpenedLiteral("assets", u);
    NoBracket();
  }

  lemma NameSuffix(raw: string, u: string)
    requires Mention(raw, "assets")
    ensures 0 <= MentionPos(raw, "assets") <= |Quoted(raw)| && (Quoted(raw) + u)[MentionPos(raw, "assets")..] == Quoted("assets") + u
  {
    var p := MentionPos(raw, "assets");
    if raw == "assets" {
      assert (Quoted(raw) + u)[0..] == Quoted(raw) + u;
    } else {
      assert raw == raw[..p - 1] + raw[p - 1..];
      assert Quoted(raw)[p..] == raw[p - 1..] + "\"";
      assert (Quoted(raw) + u)[p..] == Quoted(raw)[p..] + u;
    }
  }

  lemma NoBracket()
    ensures Opened("assets" + "\"") == None
  {
    assert "assets" + "\"" == "assets\"";
    assert "assets\""[1..] == "ssets\"" && "ssets\""[1..] == "sets\"" && "sets\""[1..] == "ets\"" && "ets\""[1..] == "ts\"";
    assert "ts\""[1..] == "s\"" && "s\""[1..] == "\"" && "\""[1..] == "";
  }

  /**
    Every object, of any nesting and whatever follows it: the scanner takes it to be
    without assets exactly when it mentions the name and the first bracket behind the
    first mention opens an empty array.
   */
  lemma AssetsText(inside: seq<Piece>, rest: string)
    requires ValidAll(inside)
    ensures NoAssets(Text(Nested(inside)) + rest, |Text(Nested(inside))|) <==> AssetsShown(inside) == Some(true)
  {
    hide NoAssets, Lookup, FirstMention, ValidAll, Opened, FirstFrom, Quoted, Key, FindString;
    var o := Text(Nested(inside));
    KeysAreKeys();
    FieldLookup.FieldLookup(inside, "", "assets", 1);
    AssetsAreLocal(o, rest);
    NoAssetsIs(o);
    if Mentions(inside, "assets") {
      ShownText(inside, "}") by { Brace(""); assert "}" + "" == "}"; }
      Within(TextAll(inside), "", FirstMention(inside, "assets"));
      assert o + "" == o && "}" + "" == "}";
      assert Opened("}") == None by { OpenedCons('}', ""); NothingOpened(); }
    } else {
      NothingShown(inside);
    }
  }

  lemma NothingOpened()
    ensures Opened("") == None
  {
  }

  lemma {:induction false} NothingShown(ps: seq<Piece>)
    requires !Mentions(ps, "assets")
    ensures AssetsShown(ps) == None
  {
    if ps != [] { NothingShown(ps[1..]); }
  }

  // ---- The object's own array ---------------------------------------------

  /** What stands in front of a literal opens the first bracket, or it stands behind. */
  lemma {:induction false} OpensSplit(ps: seq<Piece>, k: nat)
    requires k < |ps| && ps[k].Literal?
    ensures OpensEmpty(ps) == if OpensEmpty(ps[..k]).Some? then OpensEmpty(ps[..k]) else OpensEmpty(ps[k..])
  {
    hide Opened;
    if k == 0 {
      assert ps[..0] == [] && ps[0..] == ps;
    } else {
      var rest := ps[1..];
      assert ps[..k][1..] == rest[..k - 1] && ps[..k][0] == ps[0] && rest[k - 1..] == ps[k..];
      OpensSplit(rest, k - 1);
      if ps[0] == Plain('[') { PastBlanksSplit(rest, k - 1); }
    }
  }

  lemma {:induction false} PastBlanksSplit(ps: seq<Piece>, k: nat)
    requires k < |ps| && ps[k].Literal?
    ensures var r, f := PastBlanks(ps), PastBlanks(ps[..k]);
      (r != [] && r[0] == Plain(']')) <==> (f != [] && f[0] == Plain(']'))
  {
    if k == 0 {
      assert ps[..0] == [];
    } else {
      assert ps[..k][1..] == ps[1..][..k - 1] && ps[..k][0] == ps[0];
      PastBlanksSplit(ps[1..], k - 1);
    }
  }

  /** The pieces in front of the name decide, or what stands behind it. */
  lemma {:induction false} ShownSplit(ps: seq<Piece>, k: nat)
    requires k < |ps| && ps[k] == Literal("assets")
    ensures AssetsShown(ps) == if AssetsShown(ps[..k]).Some? then AssetsShown(ps[..k]) else OpensEmpty(ps[k + 1..])
  {
    hide Opened, OpensEmpty, Mention;
    if k == 0 {
      assert ps[..0] == [];
      SameMentions("assets");
    } else {
      var rest := ps[1..];
      assert ps[..k][1..] == rest[..k - 1] && ps[..k][0] == ps[0] && rest[k..] == ps[k + 1..];
      ShownSplit(rest, k - 1);
      OpensSplit(rest, k - 1);
      NameOpens(rest[k - 1..]);
      assert rest[k - 1..][1..] == rest[k..];
    }
  }

  lemma NameOpens(ps: seq<Piece>)
    requires ps != [] && ps[0] == Literal("assets")
    ensures OpensEmpty(ps) == OpensEmpty(ps[1..])
  {
    hide Opened;
    NoBracket();
  }

  lemma {:induction false} OwnOpens(ps: seq<Piece>)
    requires var r := PastSeparators(ps); r != [] && r[0] == Plain('[')
    ensures var e := PastBlanks(PastSeparators(ps)[1..]);
      OpensEmpty(ps) == Some(e != [] && e[0] == Plain(']'))
  {
    if ps[0].Plain? && (Blank(ps[0].c) || ps[0].c == ':') {
      OwnOpens(ps[1..]);
    }
  }

  /**
    The name is not mentioned in front of the member with a bracket between the mention and
    the member, or the first such bracket opens an empty array exactly when the member's does.
   */
  predicate AssetsLead(inside: seq<Piece>, k: nat)
    requires ArrayMember(inside, k, "assets")
  {
    var front := AssetsShown(inside[..k]);
    front.None? || (front.value <==> EmptyArray(inside, k, "assets"))
  }

  /** An object counts as without assets exactly when its own array of that name is empty, if and only if that array leads. */
  lemma MemberAssets(inside: seq<Piece>, k: nat, rest: string)
    requires ValidAll(inside) && ArrayMember(inside, k, "assets")
    ensures (NoAssets(Text(Nested(inside)) + rest, |Text(Nested(inside))|) <==> EmptyArray(inside, k, "assets"))
       <==> AssetsLead(inside, k)
  {
    hide NoAssets, ValidAll, AssetsShown, OpensEmpty, Text;
    AssetsText(inside, rest);
    ShownSplit(inside, k);
    OwnOpens(inside[k + 1..]);
  }

  // ---- An object whose own empty array is not seen ------------------------

  /** A member `"assets":[]`. */
  function EmptyMember(): seq<Piece> {
    [Literal("assets")] + ([Plain(':')] + ([Plain('[')] + ([Plain(']')] + [])))
  }

  /** The members `"n":"assets","x":[1],`. */
  function ListInFront(): seq<Piece> {
    [Literal("n")] + ([Plain(':')] + ([Literal("assets")] + ([Plain(',')] + ListMember())))
  }

  function ListMember(): seq<Piece> {
    [Literal("x")] + ([Plain(':')] + ([Plain('[')] + ([Plain('1')] + ([Plain(']')] + ([Plain(',')] + [])))))
  }

  lemma ConsAssets(p: Piece, ps: seq<Piece>)
    ensures p.Plain? ==> AssetsShown([p] + ps) == AssetsShown(ps)
    ensures p.Plain? && p.c != '[' ==> OpensEmpty([p] + ps) == OpensEmpty(ps)
    ensures p == Plain('[') && (ps == [] || !ps[0].Plain? || !(Blank(ps[0].c) || ps[0].c == ']')) ==> OpensEmpty([p] + ps) == Some(false)
    ensures p.Literal? ==> AssetsShown([p] + ps) == if Mention(p.raw, "assets") then OpensEmpty(ps) else AssetsShown(ps)
    ensures p.Literal? && Opened(p.raw + "\"") == None ==> OpensEmpty([p] + ps) == OpensEmpty(ps)
  {
    hide Opened, Mention;
    assert ([p] + ps)[1..] == ps;
  }

  lemma ListOpens()
    ensures OpensEmpty(ListMember()) == Some(false)
  {
    hide OpensEmpty;
    var list := [Plain('[')] + ([Plain('1')] + ([Plain(']')] + ([Plain(',')] + [])));
    assert Opened("x" + "\"") == None by { assert ("x" + "\"")[1..] == "\"" && "\""[1..] == ""; }
    ConsAssets(Plain('['), [Plain('1')] + ([Plain(']')] + ([Plain(',')] + [])));
    ConsAssets(Plain(':'), list);
    ConsAssets(Literal("x"), [Plain(':')] + list);
  }

  lemma ListShown()
    ensures AssetsShown(ListInFront()) == Some(false)
  {
    hide AssetsShown, OpensEmpty, ListMember, Mention;
    assert !Mention("n", "assets") by { Short("n"); }
    ListOpens();
    SameMentions("assets");
    ConsAssets(Plain(','), ListMember());
    ConsAssets(Literal("assets"), [Plain(',')] + ListMember());
    ConsAssets(Plain(':'), [Literal("assets")] + ([Plain(',')] + ListMember()));
    ConsAssets(Literal("n"), [Plain(':')] + ([Literal("assets")] + ([Plain(',')] + ListMember())));
  }

  lemma Short(raw: string)
    requires |raw| < 6
    ensures !Mention(raw, "assets")
  {
  }

  lemma {:induction false} ValidAppend(a: seq<Piece>, b: seq<Piece>)
    requires ValidAll(a) && ValidAll(b) && (a == [] || !a[|a| - 1].Literal?)
    ensures ValidAll(a + b)
  {
    if a == [] {
      assert a + b == b;
    } else {
      assert (a + b)[0] == a[0] && (a + b)[1..] == a[1..] + b;
      ValidAppend(a[1..], b);
    }
  }

  lemma EmptyMemberValid()
    ensures ValidAll(EmptyMember())
  {
    hide ValidAll, Raw;
    assert Raw("assets") by { ShortRaws(); }
    var s := "assets";
    NoPieces(s);
    Cons(Plain(']'), [], s);
    Cons(Plain('['), [Plain(']')] + [], s);
    Cons(Plain(':'), [Plain('[')] + ([Plain(']')] + []), s);
    Cons(Literal("assets"), [Plain(':')] + ([Plain('[')] + ([Plain(']')] + [])), s);
  }

  lemma ListMemberValid()
    ensures ValidAll(ListMember()) && |ListMember()| == 6 && ListMember()[0] == Literal("x") && ListMember()[5] == Plain(',')
  {
    hide ValidAll, Raw;
    assert Raw("x") by { ShortRaws(); }
    var s := "assets";
    NoPieces(s);
    Cons(Plain(','), [], s);
    Cons(Plain(']'), [Plain(',')] + [], s);
    Cons(Plain('1'), [Plain(']')] + ([Plain(',')] + []), s);
    Cons(Plain('['), [Plain('1')] + ([Plain(']')] + ([Plain(',')] + [])), s);
    Cons(Plain(':'), [Plain('[')] + ([Plain('1')] + ([Plain(']')] + ([Plain(',')] + []))), s);
    Cons(Literal("x"), [Plain(':')] + ([Plain('[')] + ([Plain('1')] + ([Plain(']')] + ([Plain(',')] + [])))), s);
  }

  lemma ListInFrontValid()
    ensures ValidAll(ListInFront()) && |ListInFront()| == 10 && !ListInFront()[9].Literal?
  {
    ListMemberValid();
    hide ValidAll, Raw, ListMember;
    assert Raw("n") && Raw("assets") by { ShortRaws(); }
    var s := "assets";
    Cons(Plain(','), ListMember(), s);
    Cons(Literal("assets"), [Plain(',')] + ListMember(), s);
    Cons(Plain(':'), [Literal("assets")] + ([Plain(',')] + ListMember()), s);
    Cons(Literal("n"), [Plain(':')] + ([Literal("assets")] + ([Plain(',')] + ListMember())), s);
  }

  lemma ShortRaws()
    ensures Raw("n") && Raw("x") && Raw("assets")
  {
    assert "assets"[1..] == "ssets" && "ssets"[1..] == "sets" && "sets"[1..] == "ets" && "ets"[1..] == "ts" && "ts"[1..] == "s";
    assert "s"[1..] == "" && "n"[1..] == "" && "x"[1..] == "";
  }

  lemma OwnMember(front: seq<Piece>)
    ensures var ps, k := front + EmptyMember(), |front|;
      ArrayMember(ps, k, "assets") && EmptyArray(ps, k, "assets")
  {
    var ps, k := front + EmptyMember(), |front|;
    var value: seq<Piece> := [Plain('[')] + ([Plain(']')] + []);
    assert ps[k + 1..] == [Plain(':')] + value && ([Plain(':')] + value)[1..] == value;
    assert value[1..] == [Plain(']')] + [];
    assert PastSeparators([Plain(':')] + value) == PastSeparators(value) == value;
  }

  /** In `{"n":"assets","x":[1],"assets":[]}` the list of another member hides the empty array of assets. */
  lemma OtherListTaken(rest: string)
    ensures var ps := ListInFront() + EmptyMember();
      && ValidAll(ps) && ArrayMember(ps, 10, "assets") && EmptyArray(ps, 10, "assets")
      && !NoAssets(Text(Nested(ps)) + rest, |Text(Nested(ps))|)
  {
    hide ValidAll, NoAssets, Text, ListInFront, AssetsShown;
    var ps := ListInFront() + EmptyMember();
    EmptyMemberValid();
    ListInFrontValid();
    ValidAppend(ListInFront(), EmptyMember());
    ListShown();
    assert ps[..10] == ListInFront();
    OwnMember(ListInFront());
    hide ArrayMember, EmptyArray, EmptyMember;
    MemberAssets(ps, 10, rest);
  }
}
