/** The release the scanner picks from the text of an array of releases. */
module ReleaseLaws {
  import opened AssetLookup
  import opened Bytes
  import opened FieldLookup
  import opened GlobMatch
  import opened JsonPieces
  import opened Options
  import opened ReleaseScanner

  // ---- Order of timestamps ------------------------------------------------

  lemma {:induction false} StrCmpOrder(a: string, b: string)
    ensures StrCmp(a, b) == -StrCmp(b, a) && (StrCmp(a, b) == 0 <==> a == b)
  {
    if a != "" && b != "" {
      if a[0] == b[0] {
        StrCmpOrder(a[1..], b[1..]);
        assert a == [a[0]] + a[1..] && b == [b[0]] + b[1..];
      }
    }
  }

  lemma {:induction false} StrCmpTransitive(a: string, b: string, c: string)
    requires StrCmp(a, b) <= 0 && StrCmp(b, c) <= 0
    ensures StrCmp(a, c) <= 0
    ensures StrCmp(a, b) < 0 || StrCmp(b, c) < 0 ==> StrCmp(a, c) < 0
  {
    if a != "" && b != "" && c != "" && a[0] == b[0] == c[0] {
      StrCmpTransitive(a[1..], b[1..], c[1..]);
    }
  }

  /** The order of `strcmp`: the texts agree up to a place where the first ends and the second goes on, or has the smaller character. */
  ghost predicate Precedes(a: string, b: string) {
    exists k :: PrecedesAt(a, b, k)
  }

  predicate PrecedesAt(a: string, b: string, k: int) {
    0 <= k <= |a| && k < |b| && a[..k] == b[..k] && (k == |a| || a[k] < b[k])
  }

  /** The comparison is negative exactly in that order. */
  lemma {:induction false} StrCmpMeaning(a: string, b: string)
    ensures StrCmp(a, b) < 0 <==> Precedes(a, b)
  {
    if a == "" {
      if b != "" { assert PrecedesAt(a, b, 0); }
    } else if b != "" {
      if a[0] == b[0] {
        StrCmpMeaning(a[1..], b[1..]);
        if k :| PrecedesAt(a[1..], b[1..], k) { PrecedesCons(a, b, k); }
        if k :| PrecedesAt(a, b, k) { PrecedesTail(a, b, k); }
      } else {
        if a[0] < b[0] { assert PrecedesAt(a, b, 0); }
        if k :| PrecedesAt(a, b, k) { FirstsAgree(a, b, k); }
      }
    }
  }

  lemma FirstsAgree(a: string, b: string, k: nat)
    requires PrecedesAt(a, b, k)
    ensures k > 0 ==> a[0] == b[0]
  {
    if k > 0 { assert a[0] == a[..k][0] == b[..k][0] == b[0]; }
  }

  lemma PrecedesCons(a: string, b: string, k: nat)
    requires a != "" && b != "" && a[0] == b[0] && PrecedesAt(a[1..], b[1..], k)
    ensures PrecedesAt(a, b, k + 1)
  {
    assert a[..k + 1] == [a[0]] + a[1..][..k] && b[..k + 1] == [b[0]] + b[1..][..k];
  }

  lemma PrecedesTail(a: string, b: string, k: nat)
    requires a != "" && b != "" && a[0] == b[0] && PrecedesAt(a, b, k)
    ensures k > 0 && PrecedesAt(a[1..], b[1..], k - 1)
  {
    assert a[1..][..k - 1] == a[..k][1..] && b[1..][..k - 1] == b[..k][1..];
  }

  // ---- The whole answer ---------------------------------------------------

  /** A release in the answer: its object, the places of three of its members, and the text up to the next object. */
  datatype Release = Release(inside: seq<Piece>, tag: nat, published: nat, assets: nat, sep: string)

  function ObjectText(r: Release): string {
    Text(Nested(r.inside))
  }

  predicate Good(r: Release) {
    && ValidAll(r.inside) && '{' !in r.sep
    && StringMember(r.inside, r.tag, "tag_name")
    && StringMember(r.inside, r.published, "published_at")
    && ArrayMember(r.inside, r.assets, "assets")
  }

  /** The three members are not shadowed. */
  predicate Plainly(r: Release)
    requires Good(r)
  {
    && Leads(r.inside, r.tag, "tag_name", TAG_SIZE)
    && Leads(r.inside, r.published, "published_at", TIME_SIZE)
    && AssetsLead(r.inside, r.assets)
  }

  function TagOf(r: Release): string {
    if Good(r) then Cut(Unescaped(MemberValue(r.inside, r.tag, "tag_name")), TAG_SIZE) else ""
  }

  function TimeOf(r: Release): string {
    if Good(r) then Cut(Unescaped(MemberValue(r.inside, r.published, "published_at")), TIME_SIZE) else ""
  }

  /** A release that may win: its tag matches, its array of assets is not empty, and it is dated. */
  predicate Candidate(r: Release, pattern: string) {
    Good(r) && (pattern == "" || Matches(pattern, TagOf(r))) && !EmptyArray(r.inside, r.assets, "assets") && TimeOf(r) != ""
  }

  function EntriesText(rs: seq<Release>): string {
    if rs == [] then "" else ObjectText(rs[0]) + rs[0].sep + EntriesText(rs[1..])
  }

  /** The releases in order, keeping a later one only when it is newer. */
  function Newest(rs: seq<Release>, pattern: string, best: Choice): Choice {
    if rs == [] then best
    else if Candidate(rs[0], pattern) && CompareTimestamps(TimeOf(rs[0]), best.published) > 0 then
      Newest(rs[1..], pattern, Choice(TagOf(rs[0]), TimeOf(rs[0])))
    else Newest(rs[1..], pattern, best)
  }

  lemma ConsiderMeaning(r: Release, rest: string, pattern: string, best: Choice)
    requires Good(r) && Plainly(r)
    ensures Consider(ObjectText(r) + rest, |ObjectText(r)|, pattern, best) ==
            if Candidate(r, pattern) && CompareTimestamps(TimeOf(r), best.published) > 0 then Choice(TagOf(r), TimeOf(r)) else best
  {
    hide FindString, NoAssets, Text, ValidAll, Unescaped, StringMember, ArrayMember, EmptyArray, Leads, Mentions, MemberValue, Key;
    KeysAreKeys();
    MemberFound(r.inside, r.tag, rest, "tag_name", TAG_SIZE);
    MemberFound(r.inside, r.published, rest, "published_at", TIME_SIZE);
    MemberAssets(r.inside, r.assets, rest);
  }

  lemma ObjectCloses(r: Release)
    ensures var o := ObjectText(r); |o| >= 2 && o[0] == '{' && o[|o| - 1] == '}'
  {
  }

  lemma {:induction false} ToBraceOf(sep: string, rest: string)
    requires '{' !in sep && (rest == "" || rest[0] == '{')
    ensures ToBrace(sep + rest) == |sep|
  {
    if sep == "" {
      assert sep + rest == rest;
    } else {
      ToBraceOf(sep[1..], rest);
      assert (sep + rest)[1..] == sep[1..] + rest;
    }
  }

  lemma EntriesStart(rs: seq<Release>)
    ensures EntriesText(rs) == "" || EntriesText(rs)[0] == '{'
  {
    hide Text;
    if rs != [] { ObjectCloses(rs[0]); }
  }

  /** The scan visits exactly the releases of the array, one after the other. */
  lemma {:induction false} ScanIsNewest(sep: string, rs: seq<Release>, pattern: string, best: Choice)
    requires '{' !in sep && forall r :: r in rs ==> Good(r) && Plainly(r)
    ensures Scan(sep + EntriesText(rs), pattern, best) == Newest(rs, pattern, best)
    decreases rs
  {
    hide Consider, Candidate, CompareTimestamps, ObjectText, TagOf, TimeOf, ObjectEnd, Good, Plainly;
    var t := sep + EntriesText(rs);
    EntriesStart(rs);
    ToBraceOf(sep, EntriesText(rs));
    assert t[|sep|..] == EntriesText(rs);
    if rs != [] {
      var r := rs[0];
      var rest := r.sep + EntriesText(rs[1..]);
      Assoc(ObjectText(r), r.sep, EntriesText(rs[1..]));
      assert EntriesText(rs) == ObjectText(r) + rest;
      GoodParts(r, rest);
      assert EntriesText(rs)[|ObjectText(r)|..] == rest;
      ConsiderMeaning(r, rest, pattern, best);
      ScanIsNewest(r.sep, rs[1..], pattern, Consider(ObjectText(r) + rest, |ObjectText(r)|, pattern, best));
    }
  }

  lemma GoodParts(r: Release, rest: string)
    requires Good(r)
    ensures ObjectText(r) != "" && ObjectEnd(ObjectText(r) + rest) == |ObjectText(r)| && '{' !in r.sep
  {
    hide ObjectEnd;
    ObjectEnds(r.inside, rest);
  }

  /** The first of the newest candidates: no candidate is dated later, and every candidate in front is dated earlier. */
  ghost predicate Winner(rs: seq<Release>, pattern: string, k: int) {
    && 0 <= k < |rs| && Candidate(rs[k], pattern)
    && (forall j :: 0 <= j < |rs| && Candidate(rs[j], pattern) ==> !Precedes(TimeOf(rs[k]), TimeOf(rs[j])))
    && (forall j :: 0 <= j < k && Candidate(rs[j], pattern) ==> Precedes(TimeOf(rs[j]), TimeOf(rs[k])))
  }

  /** The same in terms of the comparison the code makes. */
  predicate Best(rs: seq<Release>, pattern: string, k: int) {
    && 0 <= k < |rs| && Candidate(rs[k], pattern)
    && (forall j :: 0 <= j < |rs| && Candidate(rs[j], pattern) ==> StrCmp(TimeOf(rs[j]), TimeOf(rs[k])) <= 0)
    && (forall j :: 0 <= j < k && Candidate(rs[j], pattern) ==> StrCmp(TimeOf(rs[j]), TimeOf(rs[k])) < 0)
  }

  lemma BestIsWinner(rs: seq<Release>, pattern: string, k: int)
    ensures Best(rs, pattern, k) <==> Winner(rs, pattern, k)
  {
    hide Candidate, StrCmp, TimeOf, Precedes;
    if 0 <= k < |rs| {
      forall j | 0 <= j < |rs|
        ensures StrCmp(TimeOf(rs[j]), TimeOf(rs[k])) <= 0 <==> !Precedes(TimeOf(rs[k]), TimeOf(rs[j]))
        ensures StrCmp(TimeOf(rs[j]), TimeOf(rs[k])) < 0 <==> Precedes(TimeOf(rs[j]), TimeOf(rs[k]))
      {
        StrCmpOrder(TimeOf(rs[j]), TimeOf(rs[k]));
        StrCmpMeaning(TimeOf(rs[k]), TimeOf(rs[j]));
        StrCmpMeaning(TimeOf(rs[j]), TimeOf(rs[k]));
      }
    }
  }

  /** No candidate is newer than the choice. */
  predicate NoneNewer(rs: seq<Release>, pattern: string, best: Choice) {
    forall j :: 0 <= j < |rs| && Candidate(rs[j], pattern) ==> CompareTimestamps(TimeOf(rs[j]), best.published) <= 0
  }

  lemma {:induction false} NewestKeeps(rs: seq<Release>, pattern: string, best: Choice)
    requires NoneNewer(rs, pattern, best)
    ensures Newest(rs, pattern, best) == best
  {
    hide Candidate, CompareTimestamps;
    if rs != [] {
      assert forall j :: 0 <= j < |rs[1..]| ==> rs[1..][j] == rs[j + 1];
      NewestKeeps(rs[1..], pattern, best);
    }
  }

  lemma CompareIsStrCmp(r: Release, s: Release, pattern: string)
    requires Candidate(r, pattern) && Candidate(s, pattern)
    ensures CompareTimestamps(TimeOf(r), TimeOf(s)) == StrCmp(TimeOf(r), TimeOf(s))
  {
  }

  /** When every candidate before the winner is older than it, the winner is what remains. */
  lemma {:induction false} NewestIsWinner(rs: seq<Release>, pattern: string, best: Choice, k: nat)
    requires Best(rs, pattern, k) && CompareTimestamps(TimeOf(rs[k]), best.published) > 0
    ensures Newest(rs, pattern, best) == Choice(TagOf(rs[k]), TimeOf(rs[k]))
  {
    hide Candidate, StrCmp, TimeOf, TagOf, CompareTimestamps;
    var rest := rs[1..];
    assert forall j :: 0 <= j < |rest| ==> rest[j] == rs[j + 1];
    if k == 0 {
      forall j | 0 <= j < |rest| && Candidate(rest[j], pattern) ensures CompareTimestamps(TimeOf(rest[j]), TimeOf(rs[0])) <= 0 {
        CompareIsStrCmp(rest[j], rs[0], pattern);
      }
      NewestKeeps(rest, pattern, Choice(TagOf(rs[0]), TimeOf(rs[0])));
    } else {
      assert Best(rest, pattern, k - 1);
      var next := if Candidate(rs[0], pattern) && CompareTimestamps(TimeOf(rs[0]), best.published) > 0
                  then Choice(TagOf(rs[0]), TimeOf(rs[0])) else best;
      if next != best {
        CompareIsStrCmp(rs[k], rs[0], pattern);
        StrCmpOrder(TimeOf(rs[0]), TimeOf(rs[k]));
      }
      NewestIsWinner(rest, pattern, next, k - 1);
    }
  }

  ghost predicate AnyCandidate(rs: seq<Release>, pattern: string) {
    exists k :: 0 <= k < |rs| && Candidate(rs[k], pattern)
  }

  lemma {:induction false} BestExists(rs: seq<Release>, pattern: string) returns (k: nat)
    requires AnyCandidate(rs, pattern)
    ensures Best(rs, pattern, k)
  {
    hide Candidate, StrCmp, TimeOf;
    var last := |rs| - 1;
    var front := rs[..last];
    if AnyCandidate(front, pattern) {
      k := BestExists(front, pattern);
      StrCmpOrder(TimeOf(rs[last]), TimeOf(rs[k]));
      if Candidate(rs[last], pattern) && StrCmp(TimeOf(rs[last]), TimeOf(rs[k])) > 0 {
        forall j | 0 <= j < last && Candidate(rs[j], pattern) ensures StrCmp(TimeOf(rs[j]), TimeOf(rs[last])) < 0 {
          assert front[j] == rs[j];
          StrCmpTransitive(TimeOf(rs[j]), TimeOf(rs[k]), TimeOf(rs[last]));
        }
        StrCmpOrder(TimeOf(rs[last]), TimeOf(rs[last]));
        k := last;
      }
    } else {
      k := last;
      assert forall j :: 0 <= j < last ==> front[j] == rs[j];
      StrCmpOrder(TimeOf(rs[last]), TimeOf(rs[last]));
    }
  }

  /** The candidates have a winner as soon as there is one. */
  lemma WinnerExists(rs: seq<Release>, pattern: string) returns (k: nat)
    requires AnyCandidate(rs, pattern)
    ensures Winner(rs, pattern, k)
  {
    k := BestExists(rs, pattern);
    BestIsWinner(rs, pattern, k);
  }

  /** The text of an answer: blanks, the opening bracket, and the releases with what stands between them. */
  function AnswerText(blanks: string, sep: string, rs: seq<Release>): string {
    blanks + ("[" + (sep + EntriesText(rs)))
  }

  /**
    For every array of releases whose three members are not shadowed the scanner returns
    the tag of the first newest candidate, cut to the buffer, and fails exactly when there
    is no candidate or the winner's tag is empty.
   */
  lemma ParseMeaning(blanks: string, sep: string, rs: seq<Release>, pattern: string, tagSize: nat)
    requires Blanks(blanks) == |blanks| && '{' !in sep && tagSize > 0 && forall r :: r in rs ==> Good(r) && Plainly(r)
    ensures !AnyCandidate(rs, pattern) ==> Parse(AnswerText(blanks, sep, rs), pattern, tagSize) == None
    ensures AnyCandidate(rs, pattern) ==> exists k :: Winner(rs, pattern, k)
    ensures forall k :: Winner(rs, pattern, k) ==>
              Parse(AnswerText(blanks, sep, rs), pattern, tagSize) ==
              if TagOf(rs[k]) == "" then None else Some(Cut(TagOf(rs[k]), tagSize))
  {
    hide Candidate, StrCmp, TimeOf, TagOf, Good, Blanks;
    var tail := "[" + (sep + EntriesText(rs));
    BlanksThen(blanks, tail);
    assert AnswerText(blanks, sep, rs)[|blanks|..] == tail && tail[1..] == sep + EntriesText(rs);
    ScanIsNewest(sep, rs, pattern, Choice("", ""));
    if AnyCandidate(rs, pattern) {
      var k := WinnerExists(rs, pattern);
    } else {
      NewestKeeps(rs, pattern, Choice("", ""));
    }
    forall k | Winner(rs, pattern, k) ensures Newest(rs, pattern, Choice("", "")) == Choice(TagOf(rs[k]), TimeOf(rs[k])) {
      BestIsWinner(rs, pattern, k);
      CandidateIsDated(rs[k], pattern);
      NewestIsWinner(rs, pattern, Choice("", ""), k);
    }
  }

  lemma CandidateIsDated(r: Release, pattern: string)
    requires Candidate(r, pattern)
    ensures CompareTimestamps(TimeOf(r), "") > 0
  {
  }
}
