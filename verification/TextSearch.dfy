/** Where a marker first occurs in a text put together from parts. */
module TextSearch {
  import opened Bytes

  /** An occurrence inside a text is one inside any longer text. */
  lemma MatchExtends<T>(t: seq<T>, rest: seq<T>, m: seq<T>, i: nat)
    requires i + |m| <= |t|
    ensures MatchAt(t + rest, m, i) == MatchAt(t, m, i)
  {
    assert (t + rest)[i..i + |m|] == t[i..i + |m|];
  }

  lemma MatchElement<T>(t: seq<T>, m: seq<T>, i: nat, j: int)
    requires MatchAt(t, m, i)
    ensures 0 <= j < |m| ==> i + j < |t| && t[i + j] == m[j]
  {
    if 0 <= j < |m| { assert t[i..i + |m|][j] == t[i + j]; }
  }

  lemma FirstIs<T>(t: seq<T>, m: seq<T>, k: nat)
    requires MatchAt(t, m, k) && forall i :: 0 <= i < k ==> !MatchAt(t, m, i)
    ensures FirstFrom(t, m, 0) == k
  {
  }

  lemma NoMatchAt<T>(t: seq<T>, m: seq<T>, i: nat)
    requires m != [] && i < |t| && t[i] != m[0]
    ensures !MatchAt(t, m, i)
  {
    if MatchAt(t, m, i) { MatchElement(t, m, i, 0); }
  }

  /** An occurrence that starts inside a text ends inside it, when the marker lacks the text's last character. */
  lemma EndsInside(t: string, rest: string, m: string, i: nat)
    requires t != "" && t[|t| - 1] !in m && i < |t| && MatchAt(t + rest, m, i)
    ensures i + |m| < |t| && MatchAt(t, m, i)
  {
    hide MatchAt;
    if i + |m| >= |t| {
      MatchElement(t + rest, m, i, |t| - 1 - i);
    } else {
      MatchExtends(t, rest, m, i);
    }
  }

  /** The first occurrence of a marker without the text's last character starts inside the text or not at all. */
  lemma FirstInside(t: string, rest: string, m: string)
    requires t != "" && m != "" && t[|t| - 1] !in m
    ensures var k := FirstFrom(t + rest, m, 0);
      && (FirstFrom(t, m, 0) == -1 <==> k == -1 || k >= |t|)
      && (FirstFrom(t, m, 0) != -1 ==> FirstFrom(t, m, 0) == k && k + |m| < |t|)
  {
    hide FirstFrom;
    var all := t + rest;
    var k, l := FirstFrom(all, m, 0), FirstFrom(t, m, 0);
    if 0 <= k < |t| {
      EndsInside(t, rest, m, k);
    }
    if l != -1 {
      MatchFits(t, m, l);
      MatchExtends(t, rest, m, l);
    }
  }

  lemma MatchFits(t: string, m: string, i: nat)
    requires MatchAt(t, m, i)
    ensures i + |m| <= |t|
  {
  }

  lemma MatchShifts<T>(t: seq<T>, rest: seq<T>, m: seq<T>, i: nat)
    ensures MatchAt(t + rest, m, |t| + i) == MatchAt(rest, m, i)
  {
    if i + |m| <= |rest| {
      assert (t + rest)[|t| + i..|t| + i + |m|] == rest[i..i + |m|];
    }
  }

  lemma TooLate(t: string, m: string, i: nat)
    requires i >= |t| && m != ""
    ensures !MatchAt(t, m, i)
  {
  }

  lemma FirstNowhere(t: string, m: string)
    requires forall i: nat :: !MatchAt(t, m, i)
    ensures FirstFrom(t, m, 0) == -1
  {
  }

  lemma FirstMeans(t: string, m: string, k: nat)
    requires FirstFrom(t, m, 0) == k
    ensures forall i :: 0 <= i < k ==> !MatchAt(t, m, i)
  {
  }

  /** Neither in the first part nor in the second before a place: not before that place in the whole. */
  lemma NoneBefore<T>(h: seq<T>, u: seq<T>, m: seq<T>, k: nat)
    requires (forall i :: 0 <= i < |h| ==> !MatchAt(h + u, m, i)) && forall i :: 0 <= i < k ==> !MatchAt(u, m, i)
    ensures forall i :: 0 <= i < |h| + k ==> !MatchAt(h + u, m, i)
  {
    hide MatchAt;
    forall i | |h| <= i < |h| + k ensures !MatchAt(h + u, m, i) {
      MatchShifts(h, u, m, i - |h|);
    }
  }
}
