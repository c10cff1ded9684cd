/** Matching a release tag against a pattern with `*` and `?`. Strings stop before the terminator. */
module GlobMatch {

  /** The meaning of a pattern: a star stands for any text, a question mark for any one character. */
  predicate Matches(p: string, t: string)
    decreases |p| + |t|
  {
    if p == "" then t == ""
    else if p[0] == '*' then Matches(p[1..], t) || (t != "" && Matches(p, t[1..]))
    else t != "" && (p[0] == '?' || p[0] == t[0]) && Matches(p[1..], t[1..])
  }

  // ---- A pattern as pieces of text ----------------------------------------

  /** What one character of the pattern may stand for. */
  predicate StandsFor(c: char, w: string) {
    c == '*' || (|w| == 1 && (c == '?' || w[0] == c))
  }

  function Joined(ws: seq<string>): string {
    if ws == [] then "" else ws[0] + Joined(ws[1..])
  }

  /** The text cut into pieces, one for each character of the pattern. */
  predicate Cuts(p: string, t: string, ws: seq<string>) {
    |ws| == |p| && Joined(ws) == t && forall i :: 0 <= i < |p| ==> StandsFor(p[i], ws[i])
  }

  /** A pattern matches exactly the texts that can be cut so. */
  lemma MatchesMeaning(p: string, t: string)
    ensures Matches(p, t) <==> exists ws :: Cuts(p, t, ws)
  {
    if Matches(p, t) {
      var ws := CutUp(p, t);
    }
    if ws :| Cuts(p, t, ws) {
      CutMatches(p, t, ws);
    }
  }

  lemma CutsTail(p: string, t: string, ws: seq<string>)
    requires p != "" && Cuts(p, t, ws)
    ensures ws != [] && Cuts(p[1..], Joined(ws[1..]), ws[1..]) && t == ws[0] + Joined(ws[1..]) && StandsFor(p[0], ws[0])
  {
    assert forall i :: 0 <= i < |p[1..]| ==> p[1..][i] == p[i + 1] && ws[1..][i] == ws[i + 1];
  }

  lemma CutsCons(p: string, t: string, w: string, ws: seq<string>)
    requires p != "" && Cuts(p[1..], t, ws) && StandsFor(p[0], w)
    ensures Cuts(p, w + t, [w] + ws)
  {
    assert ([w] + ws)[1..] == ws;
    forall i | 0 <= i < |p| ensures StandsFor(p[i], ([w] + ws)[i]) {
      if i > 0 { assert p[i] == p[1..][i - 1]; }
    }
  }

  lemma {:induction false} CutMatches(p: string, t: string, ws: seq<string>)
    requires Cuts(p, t, ws)
    ensures Matches(p, t)
    decreases |p|, |t|
  {
    hide Cuts;
    if p == "" {
      assert t == "" by { EmptyCut(t, ws); }
    } else {
      CutsTail(p, t, ws);
      var w, rest := ws[0], Joined(ws[1..]);
      CutMatches(p[1..], rest, ws[1..]);
      if p[0] == '*' {
        StarTakes(p, w, rest);
      } else {
        assert t[1..] == rest;
      }
    }
  }

  lemma EmptyCut(t: string, ws: seq<string>)
    requires Cuts("", t, ws)
    ensures t == ""
  {
  }

  lemma {:induction false} StarTakes(p: string, w: string, rest: string)
    requires p != "" && p[0] == '*' && Matches(p[1..], rest)
    ensures Matches(p, w + rest)
  {
    if w == "" {
      assert w + rest == rest;
    } else {
      StarTakes(p, w[1..], rest);
      assert (w + rest)[1..] == w[1..] + rest;
    }
  }

  lemma {:induction false} CutUp(p: string, t: string) returns (ws: seq<string>)
    requires Matches(p, t)
    ensures Cuts(p, t, ws)
    decreases |p| + |t|
  {
    hide Cuts;
    if p == "" {
      ws := [];
      assert Cuts(p, t, ws) by { NoCut(); }
    } else if p[0] == '*' {
      if Matches(p[1..], t) {
        var more := CutUp(p[1..], t);
        CutsCons(p, t, "", more);
        ws := [""] + more;
        assert "" + t == t;
      } else {
        var longer := CutUp(p, t[1..]);
        CutsTail(p, t[1..], longer);
        CutsCons(p, Joined(longer[1..]), [t[0]] + longer[0], longer[1..]);
        ws := [[t[0]] + longer[0]] + longer[1..];
        assert [t[0]] + longer[0] + Joined(longer[1..]) == [t[0]] + t[1..] == t;
      }
    } else {
      var more := CutUp(p[1..], t[1..]);
      CutsCons(p, t[1..], [t[0]], more);
      ws := [[t[0]]] + more;
      assert [t[0]] + t[1..] == t;
    }
  }

  lemma NoCut()
    ensures Cuts("", "", [])
  {
  }

  // ---- Stars --------------------------------------------------------------

  /** A star at the front stands for any prefix of the text. */
  lemma {:induction false} StarIsAnyPrefix(p: string, t: string)
    ensures Matches("*" + p, t) <==> exists k :: 0 <= k <= |t| && Matches(p, t[k..])
    decreases |t|
  {
    var sp := "*" + p;
    assert sp[1..] == p && t[0..] == t;
    if t != "" {
      StarIsAnyPrefix(p, t[1..]);
      forall k | 0 <= k <= |t[1..]| ensures t[1..][k..] == t[k + 1..] {}
      if exists k :: 0 <= k <= |t| && Matches(p, t[k..]) {
        var k :| 0 <= k <= |t| && Matches(p, t[k..]);
        if k > 0 { assert t[1..][k - 1..] == t[k..]; }
      }
    }
  }

  /** The star-free piece `p[a..b]` matches the text piece of the same length at `i`. */
  predicate Piece(p: string, a: nat, b: nat, t: string, i: nat)
    requires a <= b <= |p|
  {
    i + (b - a) <= |t| && forall k :: a <= k < b ==> p[k] != '*' && (p[k] == '?' || p[k] == t[i + (k - a)])
  }

  predicate StarFree(p: string, a: nat, b: nat)
    requires a <= b <= |p|
  {
    forall k :: a <= k < b ==> p[k] != '*'
  }

  /** A star-free piece must match in place, and what follows it goes on from there. */
  lemma {:induction false} PieceThenRest(p: string, a: nat, b: nat, t: string, i: nat)
    requires a <= b <= |p| && i <= |t| && StarFree(p, a, b)
    ensures Matches(p[a..], t[i..]) <==> Piece(p, a, b, t, i) && Matches(p[b..], t[i + (b - a)..])
    decreases b - a
  {
    if a < b && i < |t| {
      PieceThenRest(p, a + 1, b, t, i + 1);
      assert p[a..][1..] == p[a + 1..] && t[i..][1..] == t[i + 1..];
      if Piece(p, a + 1, b, t, i + 1) && (p[a] == '?' || p[a] == t[i]) {
        assert Piece(p, a, b, t, i);
      }
    }
  }

  lemma StarAt(p: string, s: nat, t: string, i: nat)
    requires s < |p| && p[s] == '*' && i <= |t|
    ensures Matches(p[s..], t[i..]) <==> Matches(p[s + 1..], t[i..]) || (i < |t| && Matches(p[s..], t[i + 1..]))
  {
    assert p[s..][1..] == p[s + 1..];
    if i < |t| { assert t[i..][1..] == t[i + 1..]; }
  }

  /** A star that matches later text matches earlier text too. */
  lemma {:induction false} StarAbsorbs(p: string, s: nat, t: string, i: nat, j: nat)
    requires s < |p| && p[s] == '*' && i <= j <= |t| && Matches(p[s..], t[j..])
    ensures Matches(p[s..], t[i..])
    decreases j - i
  {
    if i < j {
      StarAbsorbs(p, s, t, i + 1, j);
      StarAt(p, s, t, i);
    }
  }

  /**
    Only the last star matters: with a star at `s`, a star-free piece behind it that
    matches at `i`, and a second star at `b`, nothing but the second star has to be
    remembered.
   */
  lemma {:induction false} LastStarSuffices(p: string, s: nat, b: nat, t: string, i: nat)
    requires s < b < |p| && p[s] == '*' && p[b] == '*' && Piece(p, s + 1, b, t, i)
    ensures Matches(p[s..], t[i..]) <==> Matches(p[b..], t[i + (b - s - 1)..])
  {
    PieceThenRest(p, s + 1, b, t, i);
    StarAt(p, s, t, i);
    if Matches(p[s..], t[i..]) {
      SecondStarMatches(p, s, b, t, i, i);
    }
  }

  lemma {:induction false} SecondStarMatches(p: string, s: nat, b: nat, t: string, i: nat, j: nat)
    requires s < b < |p| && p[s] == '*' && p[b] == '*' && Piece(p, s + 1, b, t, i)
    requires i <= j <= |t| && Matches(p[s..], t[j..])
    ensures Matches(p[b..], t[i + (b - s - 1)..])
    decreases |t| - j
  {
    StarAt(p, s, t, j);
    if Matches(p[s + 1..], t[j..]) {
      PieceThenRest(p, s + 1, b, t, j);
      StarAbsorbs(p, b, t, i + (b - s - 1), j + (b - s - 1));
    } else {
      SecondStarMatches(p, s, b, t, i, j + 1);
    }
  }

  /** When the piece uses up the text, the star has no later place to try. */
  lemma {:induction false} NoRoomLater(p: string, s: nat, b: nat, t: string, i: nat)
    requires s < b <= |p| && p[s] == '*' && StarFree(p, s + 1, b) && i <= |t| && |t| - i < b - s - 1
    ensures !Matches(p[s..], t[i..])
    decreases |t| - i
  {
    StarAt(p, s, t, i);
    PieceThenRest(p, s + 1, b, t, i);
    if i < |t| { NoRoomLater(p, s, b, t, i + 1); }
  }

  lemma {:induction false} EmptyText(p: string)
    ensures Matches(p, "") <==> forall k :: 0 <= k < |p| ==> p[k] == '*'
  {
    if p != "" {
      EmptyText(p[1..]);
      assert forall k :: 0 < k < |p| ==> p[k] == p[1..][k - 1];
      assert forall k :: 0 <= k < |p[1..]| ==> p[1..][k] == p[k + 1];
    }
  }

  /** What the loop knows: everything is decided by the last star, or by the place reached when there is none. */
  ghost predicate Reached(p: string, t: string, pi: nat, ti: nat, starP: int, starT: nat) {
    && pi <= |p| && ti <= |t|
    && (starP < 0 ==> (Matches(p, t) <==> Matches(p[pi..], t[ti..])))
    && (starP >= 0 ==>
          && starP < pi && p[starP] == '*' && starT <= ti && ti - starT == pi - starP - 1
          && Piece(p, starP + 1, pi, t, starT)
          && (Matches(p, t) <==> Matches(p[starP..], t[starT..])))
  }

  lemma MeetStar(p: string, t: string, pi: nat, ti: nat, starP: int, starT: nat)
    requires Reached(p, t, pi, ti, starP, starT) && pi < |p| && p[pi] == '*'
    ensures Reached(p, t, pi + 1, ti, pi, ti)
  {
    if starP >= 0 {
      LastStarSuffices(p, starP, pi, t, starT);
    }
  }

  lemma MatchOne(p: string, t: string, pi: nat, ti: nat, starP: int, starT: nat)
    requires Reached(p, t, pi, ti, starP, starT) && ti < |t|
    requires pi < |p| && p[pi] != '*' && (p[pi] == '?' || p[pi] == t[ti])
    ensures Reached(p, t, pi + 1, ti + 1, starP, starT)
  {
    assert p[pi..][1..] == p[pi + 1..] && t[ti..][1..] == t[ti + 1..];
  }

  lemma Backtrack(p: string, t: string, pi: nat, ti: nat, starP: int, starT: nat)
    requires Reached(p, t, pi, ti, starP, starT) && ti < |t|
    requires pi == |p| || (p[pi] != '*' && p[pi] != '?' && p[pi] != t[ti])
    ensures starP < 0 ==> !Matches(p, t)
    ensures starP >= 0 ==> Reached(p, t, starP + 1, starT + 1, starP, starT + 1)
  {
    if starP >= 0 {
      PieceThenRest(p, starP + 1, pi, t, starT);
      StarAt(p, starP, t, starT);
    }
  }

  lemma AtTextEnd(p: string, t: string, pi: nat, starP: int, starT: nat)
    requires Reached(p, t, pi, |t|, starP, starT)
    ensures Matches(p, t) <==> Matches(p[pi..], "")
  {
    assert t[|t|..] == "";
    if starP >= 0 {
      PieceThenRest(p, starP + 1, pi, t, starT);
      StarAt(p, starP, t, starT);
      if starT < |t| { NoRoomLater(p, starP, pi, t, starT + 1); }
    }
  }

  /** Stars alone match the empty text, and nothing else does. */
  lemma StarsLeft(s: string, q: nat, p: nat)
    requires q <= p <= |s| && (forall k :: q <= k < p ==> s[k] == '*') && (p < |s| ==> s[p] != '*')
    ensures Matches(s[q..], "") <==> p == |s|
  {
    hide Matches;
    EmptyText(s[q..]);
    if p < |s| {
      assert s[q..][p - q] == s[p];
    } else {
      forall k | 0 <= k < |s[q..]| ensures s[q..][k] == '*' {
        assert s[q..][k] == s[q + k];
      }
    }
  }

  lemma ReachedBounds(p: string, t: string, pi: nat, ti: nat, starP: int, starT: nat)
    requires Reached(p, t, pi, ti, starP, starT)
    ensures pi <= |p| && ti <= |t| && (starP >= 0 ==> starP < pi && starT <= ti)
  {
  }

  /** The iterative matcher with one remembered star decides the meaning exactly. */
  method Glob(pattern: string, text: string) returns (r: bool)
    ensures r <==> Matches(pattern, text)
  {
    var p, t := 0, 0;
    var starP, starT := -1, 0;
    assert pattern[0..] == pattern && text[0..] == text;
    assert Reached(pattern, text, 0, 0, -1, 0);
    hide Matches, Piece, Reached;
    while t < |text|
      invariant Reached(pattern, text, p, t, starP, starT)
      decreases if starP < 0 then |text| + 1 else |text| - starT, |text| - t, |pattern| - p
    {
      ReachedBounds(pattern, text, p, t, starP, starT);
      if p < |pattern| && pattern[p] == '*' {
        MeetStar(pattern, text, p, t, starP, starT);
        starP := p;
        p := p + 1;
        starT := t;
      } else if p < |pattern| && (pattern[p] == '?' || pattern[p] == text[t]) {
        MatchOne(pattern, text, p, t, starP, starT);
        p := p + 1;
        t := t + 1;
      } else if starP >= 0 {
        Backtrack(pattern, text, p, t, starP, starT);
        p := starP + 1;
        starT := starT + 1;
        t := starT;
      } else {
        Backtrack(pattern, text, p, t, starP, starT);
        return false;
      }
    }
    ReachedBounds(pattern, text, p, t, starP, starT);
    AtTextEnd(pattern, text, p, starP, starT);
    ghost var q := p;
    while p < |pattern| && pattern[p] == '*'
      invariant q <= p <= |pattern| && forall k :: q <= k < p ==> pattern[k] == '*'
    {
      p := p + 1;
    }
    r := p == |pattern|;
    StarsLeft(pattern, q, p);
  }
}
