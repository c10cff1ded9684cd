/**
  The search for a marker over a whole file, read in chunks with the last bytes
  of a chunk carried over to the next one.
 */
module MarkerFinder {
  import opened Bytes

  const BUFFER_SIZE: nat := 4096
  const MARKER_ROOM: nat := 128

  /**
    How the calls of `read` cut the file: `cuts[i]` is the position after call `i`.
    A call returns at least one and at most `BUFFER_SIZE` bytes; the call after
    the last one reports end of file.
   */
  ghost predicate Cut(file: seq<byte>, cuts: seq<nat>) {
    && (forall i :: 0 <= i < |cuts| ==> ReadSize(cuts, i))
    && Start(cuts, |cuts|) == |file|
  }

  predicate ReadSize(cuts: seq<nat>, i: nat)
    requires i < |cuts|
  {
    Start(cuts, i) < cuts[i] <= Start(cuts, i) + BUFFER_SIZE
  }

  function Start(cuts: seq<nat>, i: nat): nat
    requires i <= |cuts|
  {
    if i == 0 then 0 else cuts[i - 1]
  }

  /** Call `i` returned less than it was asked for. */
  predicate Short(cuts: seq<nat>, i: nat)
    requires i < |cuts|
  {
    cuts[i] != Start(cuts, i) + BUFFER_SIZE
  }

  /** An occurrence of the marker that no short read cuts in two. */
  ghost predicate Visible(file: seq<byte>, cuts: seq<nat>, m: seq<byte>, j: int) {
    MatchAt(file, m, j) && forall i :: 0 <= i < |cuts| && Short(cuts, i) ==> !(j < cuts[i] < j + |m|)
  }

  method SearchBuffer(buffer: array<byte>, total: nat, marker: seq<byte>) returns (at: int)
    requires |marker| <= total <= buffer.Length
    ensures at == -1 ==> !Contains(buffer[..total], marker)
    ensures at != -1 ==> IsLeftmost(buffer[..total], marker, at)
  {
    ghost var b := buffer[..total];
    for i := 0 to total - |marker| + 1
      invariant forall j :: 0 <= j < i ==> !MatchAt(b, marker, j)
    {
      assert b[i..i + |marker|] == buffer[i..i + |marker|];
      if buffer[i..i + |marker|] == marker {
        return i;
      }
    }
    at := -1;
  }

  /** `memmove` of the last `n` bytes to the front. */
  method MoveDown(buffer: array<byte>, from: nat, n: nat)
    requires from + n <= buffer.Length
    modifies buffer
    ensures buffer[..n] == old(buffer[from..from + n])
  {
    for i := 0 to n
      invariant forall j :: 0 <= j < i ==> buffer[j] == old(buffer[from + j])
      invariant forall j :: i <= j < buffer.Length ==> buffer[j] == old(buffer[j])
    {
      buffer[i] := buffer[from + i];
    }
  }

  /** Keeps the last `n` bytes for the next window. */
  method CarryOver(buffer: array<byte>, total: nat, n: nat) returns (kept: nat)
    requires n <= total <= buffer.Length
    modifies buffer
    ensures kept == n && buffer[..kept] == old(buffer[..total])[total - n..]
  {
    MoveDown(buffer, total - n, n);
    kept := n;
  }

  lemma {:induction false} CutsGrow(file: seq<byte>, cuts: seq<nat>, i: nat, j: nat)
    requires Cut(file, cuts) && i <= j <= |cuts|
    ensures Start(cuts, i) <= Start(cuts, j)
    decreases j
  {
    if i < j {
      CutsGrow(file, cuts, i, j - 1);
      assert ReadSize(cuts, j - 1);
    }
  }

  /** What the loop knows before read `k`: the carried bytes, and that nothing visible ended before. */
  ghost predicate Carried(file: seq<byte>, cuts: seq<nat>, m: seq<byte>, k: nat, carried: seq<byte>)
    requires k <= |cuts|
  {
    var pos := Start(cuts, k);
    && pos <= |file|
    && |carried| <= pos && carried == file[pos - |carried|..pos]
    && (|carried| != 0 ==> |carried| == |m| - 1 && |m| < MARKER_ROOM && !Short(cuts, k - 1))
    && (|carried| == 0 && pos > 0 && |m| > 1 ==> Short(cuts, k - 1))
    && forall j :: Visible(file, cuts, m, j) ==> j + |m| > pos
  }

  /** The bytes the search looks at in read `k`. */
  ghost predicate IsWindow(file: seq<byte>, cuts: seq<nat>, k: nat, carried: seq<byte>, w: seq<byte>)
    requires k < |cuts|
  {
    var base := Start(cuts, k) - |carried|;
    0 <= base <= cuts[k] <= |file| && w == file[base..cuts[k]]
  }

  /** Every visible occurrence that ends in read `k` lies in the window of carried and new bytes. */
  lemma VisibleInWindow(file: seq<byte>, cuts: seq<nat>, m: seq<byte>, k: nat, carried: seq<byte>, w: seq<byte>, j: int)
    requires m != [] && k < |cuts| && Carried(file, cuts, m, k, carried) && IsWindow(file, cuts, k, carried, w)
    requires Visible(file, cuts, m, j) && j + |m| <= cuts[k]
    ensures MatchAt(w, m, j - (Start(cuts, k) - |carried|))
  {
    var base := Start(cuts, k) - |carried|;
    if carried == [] && k > 0 {
      assert Short(cuts, k - 1) || |m| == 1;
    }
    assert j >= base;
    SliceSlice(file, base, cuts[k], j - base, j - base + |m|);
  }

  lemma ReadAt(file: seq<byte>, cuts: seq<nat>, k: nat)
    requires Cut(file, cuts) && k < |cuts|
    ensures Start(cuts, k) < cuts[k] <= |file| && cuts[k] <= Start(cuts, k) + BUFFER_SIZE
  {
    CutsGrow(file, cuts, k + 1, |cuts|);
    assert ReadSize(cuts, k);
  }

  lemma NoReads(file: seq<byte>, cuts: seq<nat>)
    requires Cut(file, cuts)
    ensures file == [] <==> cuts == []
  {
    if cuts != [] { ReadAt(file, cuts, |cuts| - 1); }
  }

  /** A match in the window is a visible occurrence in the file. */
  lemma WindowIsVisible(file: seq<byte>, cuts: seq<nat>, m: seq<byte>, k: nat, carried: seq<byte>, w: seq<byte>, i: int)
    requires m != [] && Cut(file, cuts) && k < |cuts| && Carried(file, cuts, m, k, carried)
    requires IsWindow(file, cuts, k, carried, w) && MatchAt(w, m, i)
    ensures Visible(file, cuts, m, Start(cuts, k) - |carried| + i)
  {
    var base := Start(cuts, k) - |carried|;
    SliceSlice(file, base, cuts[k], i, i + |m|);
    forall c | 0 <= c < |cuts| && Short(cuts, c)
      ensures !(base + i < cuts[c] < base + i + |m|)
    {
      NoShortInside(file, cuts, m, k, carried, c);
    }
  }

  lemma NoShortInside(file: seq<byte>, cuts: seq<nat>, m: seq<byte>, k: nat, carried: seq<byte>, c: nat)
    requires Cut(file, cuts) && k < |cuts| && Carried(file, cuts, m, k, carried)
    requires c < |cuts| && Short(cuts, c)
    ensures cuts[c] <= Start(cuts, k) - |carried| || cuts[c] >= cuts[k]
  {
    if c >= k {
      CutsGrow(file, cuts, k + 1, c + 1);
    } else if c < k - 1 {
      CutsGrow(file, cuts, c + 1, k - 1);
      assert ReadSize(cuts, k - 1);
    }
  }

  lemma CarriedStart(file: seq<byte>, cuts: seq<nat>, m: seq<byte>)
    requires m != []
    ensures Carried(file, cuts, m, 0, [])
  {
  }

  lemma CarriedEnd(file: seq<byte>, cuts: seq<nat>, m: seq<byte>, carried: seq<byte>)
    requires Cut(file, cuts) && Carried(file, cuts, m, |cuts|, carried)
    ensures FirstVisible(file, cuts, m, -1)
  {
  }

  lemma TrivialMatches(s: seq<byte>, m: seq<byte>)
    ensures m == [] ==> Contains(s, m) && forall i :: IsLeftmost(s, m, i) ==> i == 0
    ensures |s| < |m| ==> !Contains(s, m)
  {
    if m == [] { assert MatchAt(s, m, 0); }
  }

  lemma WindowOf(file: seq<byte>, cuts: seq<nat>, m: seq<byte>, k: nat, carried: seq<byte>)
    requires k < |cuts| && Start(cuts, k) <= cuts[k] <= |file|
    requires (m == [] && carried == []) || Carried(file, cuts, m, k, carried)
    ensures IsWindow(file, cuts, k, carried, carried + file[Start(cuts, k)..cuts[k]])
  {
  }

  /** `r` is the end of the leftmost visible occurrence, or -1 when there is none. */
  ghost predicate FirstVisible(file: seq<byte>, cuts: seq<nat>, m: seq<byte>, r: int) {
    if r == -1 then forall j :: !Visible(file, cuts, m, j)
    else Visible(file, cuts, m, r - |m|) && forall j :: Visible(file, cuts, m, j) ==> r - |m| <= j
  }

  /** The leftmost match in the window is the leftmost visible occurrence in the file. */
  lemma FoundIsFirst(file: seq<byte>, cuts: seq<nat>, m: seq<byte>, k: nat, carried: seq<byte>, w: seq<byte>, i: int)
    requires m != [] && Cut(file, cuts) && k < |cuts| && Carried(file, cuts, m, k, carried)
    requires IsWindow(file, cuts, k, carried, w) && IsLeftmost(w, m, i)
    ensures FirstVisible(file, cuts, m, Start(cuts, k) - |carried| + i + |m|)
  {
    WindowIsVisible(file, cuts, m, k, carried, w, i);
    forall j | Visible(file, cuts, m, j)
      ensures Start(cuts, k) - |carried| + i <= j
    {
      if j + |m| <= cuts[k] { VisibleInWindow(file, cuts, m, k, carried, w, j); }
    }
  }

  /** A window without a match adds no visible occurrence. */
  lemma NotFoundGoesOn(file: seq<byte>, cuts: seq<nat>, m: seq<byte>, k: nat, carried: seq<byte>, w: seq<byte>, next: seq<byte>)
    requires 0 < |m| < MARKER_ROOM && k < |cuts| && Carried(file, cuts, m, k, carried)
    requires IsWindow(file, cuts, k, carried, w) && !Contains(w, m)
    requires |next| <= |w| && next == w[|w| - |next|..]
    requires |next| == if Short(cuts, k) then 0 else |m| - 1
    ensures Carried(file, cuts, m, k + 1, next)
  {
    SliceSlice(file, Start(cuts, k) - |carried|, cuts[k], |w| - |next|, |w|);
    assert w[|w| - |next|..] == w[|w| - |next|..|w|];
    forall j | Visible(file, cuts, m, j)
      ensures j + |m| > cuts[k]
    {
      if j + |m| <= cuts[k] { VisibleInWindow(file, cuts, m, k, carried, w, j); }
    }
  }

  /**
    For every way the reads cut the file, the result is the end of the leftmost
    occurrence that no short read cuts in two, or -1 when there is none.
   */
  method FindMarker(file: seq<byte>, cuts: seq<nat>, marker: seq<byte>, markerLen: nat) returns (r: int)
    requires |marker| < MARKER_ROOM && Cut(file, cuts)
    ensures |marker| != markerLen ==> r == -1
    ensures |marker| == markerLen && marker == [] ==> r == if file == [] then -1 else 0
    ensures |marker| == markerLen && marker != [] ==> FirstVisible(file, cuts, marker, r)
  {
    hide MatchAt, Visible, Carried, IsLeftmost, Contains, FirstVisible, IsWindow, Cut, ReadSize;
    if |marker| != markerLen { return -1; }
    NoReads(file, cuts);
    var buffer := new byte[BUFFER_SIZE + MARKER_ROOM];
    var overlap := if markerLen > 1 then markerLen - 1 else 0;
    var prefixLen := 0;
    var fileOffset := 0;
    if marker != [] { CarriedStart(file, cuts, marker); }
    assert buffer[..0] == [];
    for k := 0 to |cuts|
      invariant fileOffset == Start(cuts, k)
      invariant prefixLen < MARKER_ROOM
      invariant marker == [] ==> k == 0 && prefixLen == 0
      invariant marker != [] ==> Carried(file, cuts, marker, k, buffer[..prefixLen])
    {
      ReadAt(file, cuts, k);
      ghost var carried := buffer[..prefixLen];
      var bytesRead := cuts[k] - fileOffset;
      StoreAfter(buffer, prefixLen, file[fileOffset..cuts[k]]);
      var totalLen := prefixLen + bytesRead;
      ghost var window := buffer[..totalLen];
      WindowOf(file, cuts, marker, k, carried);
      TrivialMatches(window, marker);
      if totalLen >= markerLen {
        var i := SearchBuffer(buffer, totalLen, marker);
        if i != -1 {
          if marker != [] {
            FoundIsFirst(file, cuts, marker, k, carried, window, i);
          }
          return (fileOffset - prefixLen) + i + markerLen;
        }
      }
      fileOffset := fileOffset + bytesRead;
      prefixLen := CarryOver(buffer, totalLen, if bytesRead == BUFFER_SIZE && totalLen >= overlap then overlap else 0);
      NotFoundGoesOn(file, cuts, marker, k, carried, window, buffer[..prefixLen]);
    }
    if marker != [] { CarriedEnd(file, cuts, marker, buffer[..prefixLen]); }
    r := -1;
  }

  /** Every read but the last is full, as for a regular file. */
  ghost predicate FullReads(cuts: seq<nat>) {
    forall i :: 0 <= i < |cuts| - 1 ==> !Short(cuts, i)
  }

  /** With full reads every occurrence is visible, so the search finds the leftmost one in the file. */
  lemma FullReadsSeeAll(file: seq<byte>, cuts: seq<nat>, m: seq<byte>, j: int)
    requires Cut(file, cuts) && FullReads(cuts)
    ensures Visible(file, cuts, m, j) <==> MatchAt(file, m, j)
  {
  }

  /**
    In general the result is the leftmost occurrence exactly when no short read
    cuts that occurrence in two.
   */
  method FindFirst(file: seq<byte>, cuts: seq<nat>, marker: seq<byte>, ghost first: int) returns (r: int)
    requires 0 < |marker| < MARKER_ROOM && Cut(file, cuts) && IsLeftmost(file, marker, first)
    ensures r == first + |marker|
       <==> forall i :: 0 <= i < |cuts| && Short(cuts, i) ==> !(first < cuts[i] < first + |marker|)
  {
    r := FindMarker(file, cuts, marker, |marker|);
    assert Visible(file, cuts, marker, first) ==> r == first + |marker|;
  }

  /** Two reads of one byte each: the marker of two bytes is in the file and not found. */
  method MissesCutMarker() returns (r: int)
    ensures Cut([1, 2], [1, 2]) && IsLeftmost([1, 2], [1, 2], 0) && r != 0 + |[1, 2]|
  {
    var file: seq<byte>, marker: seq<byte> := [1, 2], [1, 2];
    var cuts: seq<nat> := [1, 2];
    assert file[0..2] == marker && cuts[0] == 1 && cuts[1] == 2;
    assert ReadSize(cuts, 0) && ReadSize(cuts, 1);
    assert Short(cuts, 0);
    r := FindFirst(file, cuts, marker, 0);
  }
}
