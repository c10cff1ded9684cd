/** Answers with two releases, as text, and the release picked from them. */
module ReleaseExample {
  import opened AssetLookup
  import opened FieldLookup
  import opened JsonPieces
  import opened Options
  import opened ReleaseLaws
  import opened ReleaseScanner

  /** No quote and no backslash. */
  predicate Clean(s: string) {
    forall i :: 0 <= i < |s| ==> s[i] != '"' && s[i] != '\\'
  }

  lemma {:induction false} CleanIsRaw(s: string)
    requires Clean(s)
    ensures Raw(s) && Unescaped(s) == s
  {
    if s != "" {
      assert Clean(s[1..]) by { assert forall i :: 0 <= i < |s[1..]| ==> s[1..][i] == s[i + 1]; }
      CleanIsRaw(s[1..]);
      assert s == [s[0]] + s[1..];
    }
  }

  lemma CleanMentions(s: string, key: string)
    requires Clean(s) && s != key
    ensures !Mention(s, key)
  {
    if |s| > |key| && s[|s| - |key| - 1..] == "\"" + key {
      QuoteInside(s, key);
    }
  }

  lemma QuoteInside(s: string, key: string)
    requires |s| > |key| && s[|s| - |key| - 1..] == "\"" + key
    ensures !Clean(s)
  {
    assert s[|s| - |key| - 1..][0] == s[|s| - |key| - 1];
  }

  // ---- One release --------------------------------------------------------

  /** The members `"assets":[1]`. */
  function Stocked(): seq<Piece> {
    [Literal("assets")] + ([Plain(':')] + Stock())
  }

  function Stock(): seq<Piece> {
    [Plain('[')] + ([Plain('1')] + ([Plain(']')] + []))
  }

  /** A string member, a comma, and the members behind. */
  function With(key: string, raw: string, more: seq<Piece>): seq<Piece> {
    [Literal(key)] + ([Plain(':')] + ([Literal(raw)] + ([Plain(',')] + more)))
  }

  function Members(tag: string, date: string): seq<Piece> {
    With("tag_name", tag, With("published_at", date, Stocked()))
  }

  function Entry(tag: string, date: string, sep: string): Release {
    Release(Members(tag, date), 0, 4, 8, sep)
  }

  /** What an entry may hold: neither value is cut, nor holds a quoted name. */
  predicate Fits(tag: string, date: string) {
    && Clean(tag) && |tag| < TAG_SIZE && tag != "published_at" && tag != "assets"
    && Clean(date) && |date| < TIME_SIZE && date != "assets"
  }

  lemma KeysApart()
    ensures Clean("tag_name") && Clean("published_at") && Clean("assets")
    ensures "tag_name" != "published_at" && "tag_name" != "assets" && "published_at" != "assets"
  {
    assert |"tag_name"| == 8 && |"published_at"| == 12 && |"assets"| == 6;
  }

  lemma WithParts(key: string, raw: string, more: seq<Piece>)
    ensures var ps := With(key, raw, more);
      && |ps| == 4 + |more| && ps[0] == Literal(key) && ps[4..] == more
      && StringMember(ps, 0, key) && MemberValue(ps, 0, key) == raw
  {
    var ps := With(key, raw, more);
    assert ps[1..] == [Plain(':')] + ([Literal(raw)] + ([Plain(',')] + more));
    assert ps[1..][1..] == [Literal(raw)] + ([Plain(',')] + more);
  }

  lemma WithValid(key: string, raw: string, more: seq<Piece>)
    requires Raw(key) && Raw(raw) && ValidAll(more)
    ensures ValidAll(With(key, raw, more))
  {
    hide ValidAll, Raw;
    Cons(Plain(','), more, "");
    Cons(Literal(raw), [Plain(',')] + more, "");
    Cons(Plain(':'), [Literal(raw)] + ([Plain(',')] + more), "");
    Cons(Literal(key), [Plain(':')] + ([Literal(raw)] + ([Plain(',')] + more)), "");
  }

  lemma WithLookup(key: string, raw: string, more: seq<Piece>, name: string)
    requires !Mention(key, name) && !Mention(raw, name)
    ensures Lookup(With(key, raw, more), name) == Lookup(more, name)
  {
    hide Lookup, Mention;
    Cons(Plain(','), more, name);
    Cons(Literal(raw), [Plain(',')] + more, name);
    Cons(Plain(':'), [Literal(raw)] + ([Plain(',')] + more), name);
    Cons(Literal(key), [Plain(':')] + ([Literal(raw)] + ([Plain(',')] + more)), name);
  }

  lemma StockedIs()
    ensures |Stocked()| == 5 && ArrayMember(Stocked(), 0, "assets") && !EmptyArray(Stocked(), 0, "assets")
  {
    var one: seq<Piece> := [Plain('1')] + ([Plain(']')] + []);
    assert Stocked()[1..] == [Plain(':')] + Stock() && ([Plain(':')] + Stock())[1..] == Stock() && Stock()[1..] == one;
    assert PastSeparators(Stock()) == Stock() && PastBlanks(one) == one;
    assert PastSeparators([Plain(':')] + Stock()) == Stock();
  }

  lemma StockedValid()
    ensures ValidAll(Stocked())
  {
    hide ValidAll, Raw;
    assert Raw("assets") by { KeysApart(); CleanIsRaw("assets"); }
    NoPieces("");
    Cons(Plain(']'), [], "");
    Cons(Plain('1'), [Plain(']')] + [], "");
    Cons(Plain('['), [Plain('1')] + ([Plain(']')] + []), "");
    Cons(Plain(':'), Stock(), "");
    Cons(Literal("assets"), [Plain(':')] + Stock(), "");
  }

  /** A member of the part behind is a member of the whole. */
  lemma Behind(front: seq<Piece>, ps: seq<Piece>)
    ensures forall k: nat :: k < |ps| ==> (front + ps)[|front| + k] == ps[k] && (front + ps)[|front| + k + 1..] == ps[k + 1..]
  {
  }

  lemma EntryMembers(tag: string, date: string)
    ensures var ps := Members(tag, date);
      && |ps| == 13 && StringMember(ps, 0, "tag_name") && MemberValue(ps, 0, "tag_name") == tag
      && StringMember(ps, 4, "published_at") && MemberValue(ps, 4, "published_at") == date
      && ArrayMember(ps, 8, "assets") && !EmptyArray(ps, 8, "assets")
  {
    hide With, Stocked, HasColon, Following, PastSeparators, PastBlanks;
    var dated := With("published_at", date, Stocked());
    WithParts("tag_name", tag, dated);
    WithParts("published_at", date, Stocked());
    StockedIs();
    var ps := Members(tag, date);
    assert ps == ps[..4] + dated && dated == dated[..4] + Stocked();
    assert ps[4] == dated[0] && ps[5..] == dated[1..];
    assert ps[8] == Stocked()[0] && ps[9..] == dated[5..] == Stocked()[1..];
  }

  lemma EntryFronts(tag: string, date: string)
    requires Fits(tag, date)
    ensures var ps := Members(tag, date);
      |ps| >= 8 && !Mentions(ps[..4], "published_at") && !Mentions(ps[..8], "assets")
  {
    hide Lookup, Mention, Stocked, Clean;
    KeysApart();
    CleanMentions("tag_name", "published_at");
    CleanMentions(tag, "published_at");
    CleanMentions("tag_name", "assets");
    CleanMentions(tag, "assets");
    CleanMentions("published_at", "assets");
    CleanMentions(date, "assets");
    var ps := Members(tag, date);
    assert ps[..4] == With("tag_name", tag, []);
    assert ps[..8] == With("tag_name", tag, With("published_at", date, []));
    NoPieces("published_at");
    NoPieces("assets");
    WithLookup("tag_name", tag, [], "published_at");
    WithLookup("published_at", date, [], "assets");
    WithLookup("tag_name", tag, With("published_at", date, []), "assets");
  }

  /** An entry is a release with its tag, its date and an asset, each found where it stands. */
  lemma EntryIs(tag: string, date: string, sep: string)
    requires Fits(tag, date) && '{' !in sep
    ensures var r := Entry(tag, date, sep);
      Good(r) && Plainly(r) && TagOf(r) == tag && TimeOf(r) == date && !EmptyArray(r.inside, r.assets, "assets")
  {
    hide Members, ValidAll, StringMember, ArrayMember, EmptyArray, MemberValue, Unescaped, Raw, Lookup, AssetsShown, Clean;
    KeysApart();
    EntryMembers(tag, date);
    EntryFronts(tag, date);
    CleanIsRaw(tag);
    CleanIsRaw(date);
    assert ValidAll(Members(tag, date)) by { EntryValid(tag, date); }
    var ps := Members(tag, date);
    assert ps[..0] == [] && Lookup([], "tag_name") == None by { NoPieces("tag_name"); }
    NothingShown(ps[..8]);
  }

  lemma EntryValid(tag: string, date: string)
    requires Clean(tag) && Clean(date)
    ensures ValidAll(Members(tag, date))
  {
    hide ValidAll, Raw, Stocked, With, Clean;
    KeysApart();
    CleanIsRaw("tag_name");
    CleanIsRaw("published_at");
    CleanIsRaw(tag);
    CleanIsRaw(date);
    StockedValid();
    WithValid("published_at", date, Stocked());
    WithValid("tag_name", tag, With("published_at", date, Stocked()));
  }

  // ---- Two releases -------------------------------------------------------

  function Two(tag1: string, date1: string, tag2: string, date2: string): seq<Release> {
    [Entry(tag1, date1, ","), Entry(tag2, date2, "]")]
  }

  /** Of two releases the scanner picks the later one, and the first when the dates are the same or it is later. */
  lemma LaterPicked(tag1: string, date1: string, tag2: string, date2: string)
    requires Fits(tag1, date1) && Fits(tag2, date2) && tag1 != "" && tag2 != "" && date1 != "" && date2 != ""
    ensures Parse(AnswerText("", "", Two(tag1, date1, tag2, date2)), "", TAG_SIZE)
         == Some(if Precedes(date1, date2) then tag2 else tag1)
  {
    hide Good, Plainly, TagOf, TimeOf, EmptyArray, Precedes, Entry, Parse, AnswerText;
    var rs := Two(tag1, date1, tag2, date2);
    EntryIs(tag1, date1, ",");
    EntryIs(tag2, date2, "]");
    StrCmpMeaning(date1, date2);
    StrCmpMeaning(date2, date1);
    StrCmpMeaning(date1, date1);
    StrCmpMeaning(date2, date2);
    StrCmpOrder(date1, date2);
    StrCmpOrder(date1, date1);
    StrCmpOrder(date2, date2);
    assert Candidate(rs[0], "") && Candidate(rs[1], "");
    ParseMeaning("", "", rs, "", TAG_SIZE);
    assert Winner(rs, "", if Precedes(date1, date2) then 1 else 0);
  }

  /** The text of the answer. */
  lemma TwoText(tag1: string, date1: string, tag2: string, date2: string)
    ensures AnswerText("", "", Two(tag1, date1, tag2, date2))
         == "[" + (EntryText(tag1, date1) + ("," + (EntryText(tag2, date2) + "]")))
  {
    hide Text, EntryText, ObjectText;
    var a, b := Entry(tag1, date1, ","), Entry(tag2, date2, "]");
    TextOfEntry(tag1, date1);
    TextOfEntry(tag2, date2);
    assert ObjectText(a) == EntryText(tag1, date1) && ObjectText(b) == EntryText(tag2, date2) by { ObjectTexts(a); ObjectTexts(b); }
    TextOfTwo(a, b);
    Brackets(EntryText(tag1, date1), EntryText(tag2, date2));
  }

  lemma ObjectTexts(r: Release)
    ensures ObjectText(r) == Text(Nested(r.inside))
  {
  }

  lemma TextOfTwo(a: Release, b: Release)
    ensures EntriesText([a, b]) == ObjectText(a) + a.sep + (ObjectText(b) + b.sep)
  {
    hide ObjectText;
    assert [a, b][1..] == [b] && [b][1..] == [] && EntriesText([]) == "";
    assert ObjectText(b) + b.sep + "" == ObjectText(b) + b.sep;
  }

  lemma Brackets(x: string, y: string)
    ensures "" + ("[" + ("" + (x + "," + (y + "]")))) == "[" + (x + ("," + (y + "]")))
  {
  }

  /** A string member and the text behind it. */
  function WithText(key: string, raw: string, more: string): string {
    Quoted(key) + (":" + (Quoted(raw) + ("," + more)))
  }

  function EntryText(tag: string, date: string): string {
    "{" + WithText("tag_name", tag, WithText("published_at", date, Quoted("assets") + ":[1]")) + "}"
  }

  lemma TextOfCons(p: Piece, ps: seq<Piece>)
    ensures TextAll([p] + ps) == Text(p) + TextAll(ps)
  {
    assert ([p] + ps)[1..] == ps;
  }

  lemma TextOfWith(key: string, raw: string, more: seq<Piece>)
    ensures TextAll(With(key, raw, more)) == WithText(key, raw, TextAll(more))
  {
    hide TextAll;
    TextOfCons(Plain(','), more);
    TextOfCons(Literal(raw), [Plain(',')] + more);
    TextOfCons(Plain(':'), [Literal(raw)] + ([Plain(',')] + more));
    TextOfCons(Literal(key), [Plain(':')] + ([Literal(raw)] + ([Plain(',')] + more)));
  }

  lemma TextOfStocked()
    ensures TextAll(Stocked()) == Quoted("assets") + ":[1]"
  {
    hide TextAll;
    assert TextAll([]) == "" by { NoText(); }
    TextOfCons(Plain(']'), []);
    TextOfCons(Plain('1'), [Plain(']')] + []);
    TextOfCons(Plain('['), [Plain('1')] + ([Plain(']')] + []));
    TextOfCons(Plain(':'), Stock());
    TextOfCons(Literal("assets"), [Plain(':')] + Stock());
    assert ":" + ("[" + ("1" + ("]" + ""))) == ":[1]";
  }

  lemma NoText()
    ensures TextAll([]) == ""
  {
  }

  lemma TextOfEntry(tag: string, date: string)
    ensures Text(Nested(Members(tag, date))) == EntryText(tag, date)
  {
    hide TextAll, With, Stocked;
    TextOfWith("tag_name", tag, With("published_at", date, Stocked()));
    TextOfWith("published_at", date, Stocked());
    TextOfStocked();
  }

  lemma FitsDate(tag: string, date: string)
    requires |tag| == 2 && |date| == 20 && Clean(tag) && Clean(date)
    ensures Fits(tag, date)
  {
    assert |"assets"| == 6 && |"published_at"| == 12;
  }

  /** The release of 2024 is picked over that of 2023. */
  lemma NewerYearPicked()
    ensures var past, newer := EntryText("v1", "2023-01-01T00:00:00Z"), EntryText("v2", "2024-01-01T00:00:00Z");
      Parse("[" + (past + ("," + (newer + "]"))), "", TAG_SIZE) == Some("v2")
  {
    hide Parse, EntryText, Clean, Precedes;
    var d1, d2 := "2023-01-01T00:00:00Z", "2024-01-01T00:00:00Z";
    Dates();
    LaterYear(d1, d2);
    FitsDate("v1", d1);
    FitsDate("v2", d2);
    TwoText("v1", d1, "v2", d2);
    LaterPicked("v1", d1, "v2", d2);
  }

  lemma Dates()
    ensures Clean("v1") && Clean("v2") && Clean("2023-01-01T00:00:00Z") && Clean("2024-01-01T00:00:00Z")
  {
  }

  lemma LaterYear(a: string, b: string)
    requires |a| > 3 && |b| > 3 && a[0] == b[0] && a[1] == b[1] && a[2] == b[2] && a[3] < b[3]
    ensures Precedes(a, b)
  {
    assert a[..3] == b[..3];
    assert PrecedesAt(a, b, 3);
  }
}
