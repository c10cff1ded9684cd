/** Flipping the single-executable fuse in a raw image. */
module SeaFuse {
  import opened Bytes

  const FUSE_LEN := 48

  function FuseName(): (r: seq<byte>)
    ensures |r| == 14 && r[0] == 'N' as int && forall k :: 0 < k < 14 ==> r[k] != 'N' as int
  {
    Ascii("NODE_SEA_FUSE_")
  }

  function FuseHash(): (r: seq<byte>)
    ensures |r| == 32 && forall k :: 0 <= k < 32 ==> r[k] != 'N' as int
  {
    HalfHash("fce680ab2cc467b6") + HalfHash("e072b8b5df1996b2")
  }

  function HalfHash(s: string): (r: seq<byte>)
    requires |s| == 16 && forall i :: 0 <= i < 16 ==> s[i] < 128 as char && s[i] != 'N'
    ensures |r| == 16 && forall k :: 0 <= k < 16 ==> r[k] != 'N' as int
  {
    Ascii(s)
  }

  function Fuse(): (r: seq<byte>)
    ensures |r| == FUSE_LEN && r[FUSE_LEN - 1] == '0' as int
    ensures r[0] == 'N' as int && forall k :: 0 < k < FUSE_LEN ==> r[k] != 'N' as int
  {
    FuseName() + FuseHash() + Ascii(":0")
  }

  /** The places where an unflipped fuse stands. */
  function Unflipped(s: seq<byte>): set<int> {
    set i | 0 <= i <= |s| && MatchAt(s, Fuse(), i)
  }

  /** The image with its leftmost unflipped fuse flipped, or the image itself when there is none. */
  function Flipped(s: seq<byte>): (r: seq<byte>)
    ensures |r| == |s|
  {
    var i := FirstFrom(s, Fuse(), 0);
    if i == -1 then s else s[i + FUSE_LEN - 1 := '1' as int]
  }

  method FlipSeaFuseRaw(data: array<byte>)
    modifies data
    ensures data[..] == Flipped(old(data[..]))
  {
    var fuse := Fuse();
    ghost var s := data[..];
    var i := 0;
    while i + |fuse| <= data.Length
      invariant forall j :: 0 <= j < i ==> !MatchAt(s, fuse, j)
      invariant data[..] == s
    {
      assert s[i..i + |fuse|] == data[i..i + |fuse|];
      if data[i..i + |fuse|] == fuse {
        assert MatchAt(s, fuse, i) && FirstFrom(s, fuse, 0) == i;
        data[i + |fuse| - 1] := '1' as int;
        return;
      }
      i := i + 1;
    }
    assert FirstFrom(s, fuse, 0) == -1;
  }

  lemma FlipRemovesOnlyThis(s: seq<byte>, i: int, j: int)
    requires MatchAt(s, Fuse(), i)
    ensures MatchAt(s[i + FUSE_LEN - 1 := '1' as int], Fuse(), j) <==> MatchAt(s, Fuse(), j) && j != i
  {
    var p := i + FUSE_LEN - 1;
    var t := s[p := '1' as int];
    if 0 <= j && j + FUSE_LEN <= |s| {
      if j <= p < j + FUSE_LEN {
        // The fuse starts with its only 'N', so two of them cannot overlap.
        if j == i {
          assert t[j..j + FUSE_LEN][FUSE_LEN - 1] == '1' as int;
        } else {
          assert s[j..j + FUSE_LEN][0] == s[i..i + FUSE_LEN][j - i];
          assert t[j..j + FUSE_LEN][0] == t[j];
        }
      } else {
        assert t[j..j + FUSE_LEN] == s[j..j + FUSE_LEN];
      }
    }
  }

  /**
    A flip removes exactly the leftmost unflipped fuse: every other one stays,
    none appears, and only that fuse's last byte changes.
   */
  lemma FlipTakesOne(s: seq<byte>)
    ensures Unflipped(s) == {} ==> Flipped(s) == s
    ensures Unflipped(s) != {} ==>
      var i := FirstFrom(s, Fuse(), 0);
      && i in Unflipped(s) && (forall j :: j in Unflipped(s) ==> i <= j)
      && Unflipped(Flipped(s)) == Unflipped(s) - {i}
      && |Unflipped(Flipped(s))| == |Unflipped(s)| - 1
      && i + FUSE_LEN <= |s| && s[i + FUSE_LEN - 1] == '0' as int && Flipped(s)[i + FUSE_LEN - 1] == '1' as int
      && forall k :: 0 <= k < |s| && k != i + FUSE_LEN - 1 ==> Flipped(s)[k] == s[k]
  {
    hide Fuse, FirstFrom;
    var i := FirstFrom(s, Fuse(), 0);
    if i == -1 {
      assert Unflipped(s) == {};
    } else {
      forall j
        ensures j in Unflipped(Flipped(s)) <==> j in Unflipped(s) && j != i
      {
        FlipRemovesOnlyThis(s, i, j);
      }
      RemoveOne(Unflipped(s), Unflipped(Flipped(s)), i);
    }
  }

  lemma RemoveOne(a: set<int>, b: set<int>, i: int)
    requires i in a && forall j :: j in b <==> j in a && j != i
    ensures b == a - {i} && |b| == |a| - 1
  {
    assert forall j :: j in b <==> j in a - {i};
    assert b == a - {i};
  }
}
