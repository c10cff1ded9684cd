/**
  Byte strings as the C and C++ sources see them: fixed-width little-endian
  fields copied in and out with `memcpy`, patches in place, and the leftmost
  occurrence of a marker.
 */
module Bytes {

  type byte = x: int | 0 <= x < 256

  const TWO_32: nat := 0x1_0000_0000
  const TWO_63: nat := 0x8000_0000_0000_0000
  const TWO_64: nat := 0x1_0000_0000_0000_0000

  /** The value of a `uint64_t` expression whose mathematical value is `x`: `x` wrapped into the range. */
  function W64(x: int): (r: nat)
    ensures r < TWO_64
    ensures 0 <= x < TWO_64 ==> r == x
    decreases if x < 0 then TWO_64 - x else x
  {
    if x < 0 then W64(x + TWO_64) else if x >= TWO_64 then W64(x - TWO_64) else x
  }

  /** Wrapping is the remainder modulo 2^64, for negative values too. */
  lemma {:induction false} W64Is(x: int)
    ensures W64(x) == x % TWO_64
    decreases if x < 0 then TWO_64 - x else x
  {
    if x < 0 {
      W64Is(x + TWO_64);
    } else if x >= TWO_64 {
      W64Is(x - TWO_64);
    }
  }

  lemma Assoc<T>(a: seq<T>, b: seq<T>, c: seq<T>)
    ensures (a + b) + c == a + (b + c)
  {
  }

  lemma HeadTail<T>(s: seq<T>)
    requires s != []
    ensures s == [s[0]] + s[1..]
  {
  }

  lemma SliceSlice<T>(s: seq<T>, a: nat, b: nat, c: nat, d: nat)
    requires a <= b <= |s| && c <= d <= b - a
    ensures s[a..b][c..d] == s[a + c..a + d]
  {
    var l, r := s[a..b][c..d], s[a + c..a + d];
    assert |l| == |r| && forall i :: 0 <= i < |l| ==> l[i] == r[i];
  }

  lemma SliceHead<T>(s: seq<T>, at: nat, k: nat)
    requires 0 < k && at + k <= |s|
    ensures s[at..at + k] == [s[at]] + s[at + 1..at + 1 + (k - 1)]
  {
  }

  // ---- Little-endian fields -----------------------------------------------

  function Pow256(k: nat): (r: nat)
    ensures r > 0
  {
    if k == 0 then 1 else 256 * Pow256(k - 1)
  }

  /** The low `k` bytes of `v`, least significant first. */
  function ToLE(v: nat, k: nat): (r: seq<byte>)
    ensures |r| == k
    decreases k, v
  {
    if k == 0 then [] else [v % 256] + ToLE(v / 256, k - 1)
  }

  /** `memcpy(&x, data + at, k)` into an unsigned `k`-byte variable. */
  function Field(s: seq<byte>, at: nat, k: nat): (r: nat)
    requires at + k <= |s|
    ensures r < Pow256(k)
    decreases k, s
  {
    if k == 0 then 0 else s[at] + 256 * Field(s, at + 1, k - 1)
  }

  /** A field that holds the bytes of a value reads as that value when it fits the width. */
  lemma {:induction false} FieldIs(s: seq<byte>, at: nat, v: nat, k: nat)
    requires at + k <= |s| && v < Pow256(k) && s[at..at + k] == ToLE(v, k)
    ensures Field(s, at, k) == v
    decreases k, s
  {
    if k > 0 {
      assert s[at] == s[at..at + k][0];
      assert s[at + 1..at + 1 + (k - 1)] == s[at..at + k][1..] == ToLE(v / 256, k - 1);
      FieldIs(s, at + 1, v / 256, k - 1);
    }
  }

  /** Byte `i` of a stored value is its digit `i` to the base 256: least significant first. */
  lemma {:induction false} ToLEDigit(v: nat, k: nat, i: nat)
    requires i < k
    ensures ToLE(v, k)[i] == v / Pow256(i) % 256
    decreases k
  {
    if i > 0 {
      ToLEDigit(v / 256, k - 1, i - 1);
      DivTwice(v, Pow256(i - 1));
    }
  }

  /** Byte `i` of a field is the field's digit `i` to the base 256. */
  lemma FieldDigit(s: seq<byte>, at: nat, k: nat, i: nat)
    requires at + k <= |s| && i < k
    ensures Field(s, at, k) / Pow256(i) % 256 == s[at + i]
  {
    hide Field, ToLE;
    FieldBytes(s, at, k);
    ToLEDigit(Field(s, at, k), k, i);
    assert s[at..at + k][i] == s[at + i];
  }

  lemma DivTwice(v: nat, b: nat)
    requires b > 0
    ensures v / 256 / b == v / (256 * b)
  {
    var q, r := v / 256, v % 256;
    var t, u := q / b, q % b;
    Spread(b, t, 256);
    QuotientOf(v, 256 * b, t, 256 * u + r);
  }

  lemma Spread(b: nat, t: nat, c: nat)
    ensures (c * b) * t == c * (b * t)
  {
  }

  lemma QuotientOf(v: nat, m: nat, t: nat, rest: nat)
    requires m > 0 && v == m * t + rest && rest < m
    ensures v / m == t
  {
    var q := v / m;
    if q < t { OneMore(m, q, t); }
    if t < q { OneMore(m, t, q); }
  }

  lemma OneMore(m: nat, q: nat, t: nat)
    requires q < t
    ensures m * q + m <= m * t
  {
    Distribute(m, q + 1, t - q - 1);
    Distribute(m, q, 1);
  }

  lemma Distribute(m: nat, x: nat, y: nat)
    ensures m * (x + y) == m * x + m * y && m * y >= 0
  {
  }

  lemma FieldStep(s: seq<byte>, at: nat, k: nat)
    requires at + k <= |s| && k > 0
    ensures Field(s, at, k) == s[at] + 256 * Field(s, at + 1, k - 1)
  {
  }

  lemma ToLEStep(low: byte, rest: nat, k: nat)
    requires k > 0
    ensures ToLE(low + 256 * rest, k) == [low] + ToLE(rest, k - 1)
  {
    assert (low + 256 * rest) % 256 == low && (low + 256 * rest) / 256 == rest;
  }

  /** Writing back a field that was read leaves the bytes as they were. */
  lemma {:induction false} FieldBytes(s: seq<byte>, at: nat, k: nat)
    requires at + k <= |s|
    ensures ToLE(Field(s, at, k), k) == s[at..at + k]
    decreases k, s
  {
    if k > 0 {
      hide Field, ToLE;
      FieldBytes(s, at + 1, k - 1);
      FieldStep(s, at, k);
      ToLEStep(s[at], Field(s, at + 1, k - 1), k);
      SliceHead(s, at, k);
    } else {
      assert s[at..at] == [];
    }
  }

  /** Fields depend only on their own bytes. */
  lemma {:induction false} SameField(s: seq<byte>, at: nat, t: seq<byte>, bt: nat, k: nat)
    requires at + k <= |s| && bt + k <= |t|
    requires s[at..at + k] == t[bt..bt + k]
    ensures Field(s, at, k) == Field(t, bt, k)
    decreases k, s
  {
    if k > 0 {
      assert s[at] == s[at..at + k][0] && t[bt] == t[bt..bt + k][0];
      assert s[at + 1..at + 1 + (k - 1)] == s[at..at + k][1..];
      assert t[bt + 1..bt + 1 + (k - 1)] == t[bt..bt + k][1..];
      SameField(s, at + 1, t, bt + 1, k - 1);
    }
  }

  lemma Widths()
    ensures Pow256(2) == 0x1_0000
    ensures Pow256(4) == TWO_32
    ensures Pow256(8) == TWO_64
  {
    assert Pow256(2) == 0x1_0000;
    assert Pow256(4) == 256 * (256 * Pow256(2));
    assert Pow256(6) == 256 * (256 * Pow256(4));
    assert Pow256(8) == 256 * (256 * Pow256(6));
  }

  /** `memcpy(data + at, b, |b|)`. */
  function Put(s: seq<byte>, at: nat, b: seq<byte>): (r: seq<byte>)
    requires at + |b| <= |s|
    ensures |r| == |s|
    decreases |b|
  {
    if b == [] then s else Put(s[at := b[0]], at + 1, b[1..])
  }

  lemma {:induction false} PutIs(s: seq<byte>, at: nat, b: seq<byte>)
    requires at + |b| <= |s|
    ensures Put(s, at, b) == s[..at] + b + s[at + |b|..]
    decreases |b|
  {
    if b != [] {
      PutIs(s[at := b[0]], at + 1, b[1..]);
    }
  }

  lemma PutAt(s: seq<byte>, at: nat, b: seq<byte>)
    requires at + |b| <= |s|
    ensures Put(s, at, b)[at..at + |b|] == b
    ensures forall j :: 0 <= j < |s| && !(at <= j < at + |b|) ==> Put(s, at, b)[j] == s[j]
  {
    PutIs(s, at, b);
  }

  lemma PutAdjacent(s: seq<byte>, at: nat, b: seq<byte>, c: seq<byte>)
    requires at + |b| + |c| <= |s|
    ensures Put(Put(s, at, b), at + |b|, c) == Put(s, at, b + c)
  {
    var m := Put(s, at, b);
    PutIs(s, at, b);
    PutIs(m, at + |b|, c);
    PutIs(s, at, b + c);
    assert m[..at + |b|] == s[..at] + b;
    assert m[at + |b| + |c|..] == s[at + |b| + |c|..];
    Assoc(s[..at], b, c);
  }

  /** Stores bytes in an array the way `memcpy` does. */
  method Store(a: array<byte>, at: nat, b: seq<byte>)
    requires at + |b| <= a.Length
    modifies a
    ensures a[..] == Put(old(a[..]), at, b)
  {
    ghost var was := a[..];
    for i := 0 to |b|
      invariant forall j :: 0 <= j < a.Length && !(at <= j < at + i) ==> a[j] == was[j]
      invariant forall j :: 0 <= j < i ==> a[at + j] == b[j]
    {
      a[at + i] := b[i];
    }
    PutIs(was, at, b);
    assert a[..] == was[..at] + b + was[at + |b|..];
  }

  /** Stores bytes behind the `n` bytes already there. */
  method StoreAfter(a: array<byte>, n: nat, b: seq<byte>)
    requires n + |b| <= a.Length
    modifies a
    ensures a[..n + |b|] == old(a[..n]) + b
  {
    PutIs(a[..], n, b);
    Store(a, n, b);
    assert a[..n + |b|] == a[..][..n + |b|];
  }

  // ---- Concatenation -------------------------------------------------------

  function Flatten(cs: seq<seq<byte>>): seq<byte> {
    if cs == [] then [] else cs[0] + Flatten(cs[1..])
  }

  lemma {:induction false} FlattenAppend(a: seq<seq<byte>>, b: seq<seq<byte>>)
    ensures Flatten(a + b) == Flatten(a) + Flatten(b)
  {
    if a == [] {
      assert a + b == b;
    } else {
      FlattenAppend(a[1..], b);
      assert (a + b)[0] == a[0] && (a + b)[1..] == a[1..] + b;
      Assoc(a[0], Flatten(a[1..]), Flatten(b));
    }
  }

  // ---- Occurrences of a marker --------------------------------------------

  predicate MatchAt<T(==)>(s: seq<T>, m: seq<T>, i: int) {
    0 <= i && i + |m| <= |s| && s[i..i + |m|] == m
  }

  ghost predicate Contains(s: seq<byte>, m: seq<byte>) {
    exists i :: MatchAt(s, m, i)
  }

  ghost predicate IsLeftmost(s: seq<byte>, m: seq<byte>, i: int) {
    MatchAt(s, m, i) && forall j :: 0 <= j < i ==> !MatchAt(s, m, j)
  }

  /** The first match at or after `i`, or -1. */
  function FirstFrom<T(==)>(s: seq<T>, m: seq<T>, i: nat): (r: int)
    ensures r == -1 || (i <= r && MatchAt(s, m, r))
    ensures forall j :: i <= j && (r == -1 || j < r) ==> !MatchAt(s, m, j)
    decreases |s| - i
  {
    if i + |m| > |s| then -1
    else if MatchAt(s, m, i) then i
    else FirstFrom(s, m, i + 1)
  }

  /** The bytes of an ASCII literal. */
  function Ascii(s: string): (r: seq<byte>)
    requires forall i :: 0 <= i < |s| ==> s[i] < 128 as char
    ensures |r| == |s| && forall i :: 0 <= i < |s| ==> r[i] == s[i] as int
  {
    seq(|s|, i requires 0 <= i < |s| => s[i] as int)
  }

  /** No proper part of the marker is both its start and its end. */
  ghost predicate Unbordered(m: seq<byte>) {
    forall k :: 0 < k < |m| ==> m[..k] != m[|m| - k..]
  }

  /**
    Behind a prefix, an unbordered marker is found at its place exactly when the
    prefix does not contain it: no occurrence straddles the boundary.
   */
  lemma FirstBehindPrefix(p: seq<byte>, m: seq<byte>, rest: seq<byte>)
    requires m != [] && Unbordered(m)
    ensures FirstFrom(p + m + rest, m, 0) == |p| <==> !Contains(p, m)
  {
    hide FirstFrom;
    var s := p + m + rest;
    assert s[|p|..|p| + |m|] == m;
    assert MatchAt(s, m, |p|);
    if i :| MatchAt(p, m, i) {
      assert s[i..i + |m|] == p[i..i + |m|];
      assert MatchAt(s, m, i);
    }
    forall i | 0 <= i < |p| && MatchAt(s, m, i)
      ensures Contains(p, m)
    {
      if i + |m| <= |p| {
        assert p[i..i + |m|] == s[i..i + |m|];
        assert MatchAt(p, m, i);
      } else {
        Straddle(s, m, i, |p|);
      }
    }
  }

  /** Two overlapping occurrences give the marker a border. */
  lemma Overlap(s: seq<byte>, m: seq<byte>, i: nat, j: nat)
    requires MatchAt(s, m, i) && MatchAt(s, m, j) && i < j < i + |m|
    ensures var k := i + |m| - j;
      m[..k] == m[|m| - k..]
  {
    var k := i + |m| - j;
    SliceSlice(s, i, i + |m|, |m| - k, |m|);
    SliceSlice(s, j, j + |m|, 0, k);
    assert m[|m| - k..] == m[|m| - k..|m|] && m[..k] == m[0..k];
  }

  lemma Straddle(s: seq<byte>, m: seq<byte>, i: nat, j: nat)
    requires m != [] && Unbordered(m) && MatchAt(s, m, i) && MatchAt(s, m, j) && i < j
    ensures i + |m| <= j
  {
    if j < i + |m| {
      Overlap(s, m, i, j);
    }
  }
}
