/**
  Addresses for PT_NOTE segments that have none: each is placed on a page boundary
  behind the highest PT_LOAD. Segments are plain records, patched in place.
 */
module SegmentPlacement {
  import opened Alignment
  import opened Bits
  import opened Bytes

  type word = x: int | 0 <= x < TWO_64

  datatype Kind = Load | Note | Other

  datatype Segment = Segment(kind: Kind, vaddr: word, paddr: word, vsize: word, psize: word)

  /** `align_up` to a page on a 64-bit word; the sum wraps to zero at the top. */
  function PageUp(x: word): word {
    if x + 0xFFF < TWO_64 then AlignPage(x) else 0
  }

  /** Which is what the mask of the code computes, for every word. */
  lemma PageUpMasks(x: word)
    ensures 0x1000 <= Pow2(64) && PageUp(x) == AlignUp(x, 0x1000)
  {
    hide AlignUp, AlignPage;
    AlignUpPage(x);
  }

  predicate NeedsAddress(s: Segment) {
    s.kind == Note && s.vaddr == 0
  }

  function End(s: Segment): word {
    W64(s.vaddr + s.vsize)
  }

  /** The highest end of a PT_LOAD, zero without one. */
  function MaxLoadEnd(s: seq<Segment>): word {
    if s == [] then 0
    else
      var m, e := MaxLoadEnd(s[..|s| - 1]), End(s[|s| - 1]);
      if s[|s| - 1].kind == Load && e > m then e else m
  }

  function After(next: word, s: Segment): word {
    PageUp(W64(next + s.psize))
  }

  /** The placement: segments in need take `next` in turn. */
  function Place(s: seq<Segment>, next: word): seq<Segment> {
    if s == [] then []
    else if NeedsAddress(s[0]) then [s[0].(vaddr := next, paddr := next)] + Place(s[1..], After(next, s[0]))
    else [s[0]] + Place(s[1..], next)
  }

  function Fixed(s: seq<Segment>): seq<Segment> {
    Place(s, PageUp(MaxLoadEnd(s)))
  }

  /** The first loop. */
  method HighestLoadEnd(segments: array<Segment>) returns (maxLoadEnd: word)
    ensures maxLoadEnd == MaxLoadEnd(segments[..])
  {
    maxLoadEnd := 0;
    for i := 0 to segments.Length
      invariant maxLoadEnd == MaxLoadEnd(segments[..i])
    {
      assert segments[..i + 1][..i] == segments[..i];
      var seg := segments[i];
      if seg.kind == Load {
        var segEnd: word := W64(seg.vaddr + seg.vsize);
        if segEnd > maxLoadEnd { maxLoadEnd := segEnd; }
      }
    }
    assert segments[..segments.Length] == segments[..];
  }

  lemma PlaceFrom(s: seq<Segment>, i: nat, next: word)
    requires i < |s|
    ensures Place(s[i..], next) == if NeedsAddress(s[i]) then [s[i].(vaddr := next, paddr := next)] + Place(s[i + 1..], After(next, s[i]))
                                   else [s[i]] + Place(s[i + 1..], next)
  {
    hide After;
    assert s[i..][1..] == s[i + 1..];
  }

  /** One turn of the second loop: a segment more is done. */
  lemma PlaceOn(done: seq<Segment>, s: seq<Segment>, i: nat, next: word, x: Segment, after: word)
    requires i < |s|
    requires if NeedsAddress(s[i]) then x == s[i].(vaddr := next, paddr := next) && after == After(next, s[i])
             else x == s[i] && after == next
    ensures done + Place(s[i..], next) == (done + [x]) + Place(s[i + 1..], after)
  {
    hide Place, After;
    PlaceFrom(s, i, next);
    Assoc(done, [x], Place(s[i + 1..], after));
  }

  method FixNoteSegmentVaddrs(segments: array<Segment>)
    modifies segments
    ensures segments[..] == Fixed(old(segments[..]))
  {
    hide W64, PageUp, Place;
    ghost var was := segments[..];
    var maxLoadEnd := HighestLoadEnd(segments);
    var nextVaddr: word := PageUp(maxLoadEnd);
    assert was[0..] == was && segments[..0] + Place(was, nextVaddr) == Fixed(was);
    hide Fixed;
    for i := 0 to segments.Length
      invariant forall k :: i <= k < segments.Length ==> segments[k] == was[k]
      invariant segments[..i] + Place(was[i..], nextVaddr) == Fixed(was)
    {
      ghost var done, next := segments[..i], nextVaddr;
      var seg := segments[i];
      if seg.kind == Note && seg.vaddr == 0 {
        segments[i] := seg.(vaddr := nextVaddr, paddr := nextVaddr);
        nextVaddr := PageUp(W64(nextVaddr + seg.psize));
      }
      PlaceOn(done, was, i, next, segments[i], nextVaddr);
      assert segments[..i + 1] == done + [segments[i]];
    }
    PlaceEmpty(nextVaddr);
    assert was[segments.Length..] == [];
    assert segments[..segments.Length] + [] == segments[..];
  }

  // ---- What the placement achieves ----------------------------------------

  /** The address space the segments in need take, in whole pages. */
  function Needed(s: seq<Segment>): nat {
    if s == [] then 0 else (if NeedsAddress(s[0]) then AlignPage(s[0].psize) else 0) + Needed(s[1..])
  }

  /** No sum in the computation wraps. */
  predicate NoOverflow(s: seq<Segment>) {
    && (forall i :: 0 <= i < |s| && s[i].kind == Load ==> s[i].vaddr + s[i].vsize < TWO_64)
    && AlignPage(MaxLoadEnd(s)) + Needed(s) < TWO_64
  }

  lemma AlignedSum(next: nat, size: nat)
    requires next % PAGE == 0
    ensures AlignPage(next + size) == next + AlignPage(size)
  {
    assert next == next / 0x1000 * 0x1000;
    assert (next + size + 0xFFF) / 0x1000 == next / 0x1000 + (size + 0xFFF) / 0x1000;
  }

  /** Without overflow the next address is the next page behind the segment. */
  lemma AfterIs(next: word, s: Segment)
    requires next % PAGE == 0 && next + AlignPage(s.psize) < TWO_64
    ensures After(next, s) == next + AlignPage(s.psize) && After(next, s) % PAGE == 0
  {
    hide W64;
    AlignedSum(next, s.psize);
    assert next == next / 0x1000 * 0x1000 && AlignPage(s.psize) == AlignPage(s.psize) / 0x1000 * 0x1000;
    assert W64(next + s.psize) == next + s.psize;
  }

  lemma MaxLoadEndBounds(s: seq<Segment>, i: nat)
    requires i < |s| && s[i].kind == Load
    ensures End(s[i]) <= MaxLoadEnd(s)
  {
    if i < |s| - 1 { MaxLoadEndBounds(s[..|s| - 1], i); }
  }

  /** Only segments in need change, and only their two addresses. */
  lemma {:induction false} PlaceFrame(s: seq<Segment>, next: word, i: nat)
    requires i < |s|
    ensures |Place(s, next)| == |s|
    ensures !NeedsAddress(s[i]) ==> Place(s, next)[i] == s[i]
    ensures NeedsAddress(s[i]) ==> var a := Place(s, next)[i].vaddr; Place(s, next)[i] == s[i].(vaddr := a, paddr := a)
  {
    var after := if NeedsAddress(s[0]) then After(next, s[0]) else next;
    if i > 0 { PlaceFrame(s[1..], after, i - 1); } else if |s| > 1 { PlaceFrame(s[1..], after, 0); }
  }

  lemma {:induction false} PlacedOnPage(s: seq<Segment>, next: word, i: nat)
    requires i < |s| && NeedsAddress(s[i]) && next % PAGE == 0
    ensures |Place(s, next)| == |s| && Place(s, next)[i].vaddr % PAGE == 0
  {
    hide W64, AlignPage;
    PlaceFrame(s, next, i);
    if i > 0 {
      var after := if NeedsAddress(s[0]) then After(next, s[0]) else next;
      PlacedOnPage(s[1..], after, i - 1);
      assert Place(s, next)[i] == Place(s[1..], after)[i - 1];
    }
  }

  /** Even where a sum wraps, a segment in need gets one page boundary as both addresses, and nothing else changes. */
  lemma AlwaysOnPage(s: seq<Segment>, i: nat)
    requires i < |s|
    ensures |Fixed(s)| == |s|
    ensures if NeedsAddress(s[i]) then var a := Fixed(s)[i].vaddr; a % PAGE == 0 && Fixed(s)[i] == s[i].(vaddr := a, paddr := a)
            else Fixed(s)[i] == s[i]
  {
    hide Place, W64, AlignPage;
    PlaceFrame(s, PageUp(MaxLoadEnd(s)), i);
    if NeedsAddress(s[i]) { PlacedOnPage(s, PageUp(MaxLoadEnd(s)), i); }
  }

  /** Placed segments start on a page at or behind `next` and end below the top. */
  lemma {:induction false} PlaceBounds(s: seq<Segment>, next: word, i: nat)
    requires i < |s| && NeedsAddress(s[i]) && next % PAGE == 0 && next + Needed(s) < TWO_64
    ensures |Place(s, next)| == |s|
    ensures var a := Place(s, next)[i].vaddr; a % PAGE == 0 && next <= a && a + s[i].psize < TWO_64
  {
    PlaceFrame(s, next, i);
    if NeedsAddress(s[0]) { AfterIs(next, s[0]); }
    if i > 0 {
      var after := if NeedsAddress(s[0]) then After(next, s[0]) else next;
      PlaceFrame(s[1..], after, i - 1);
      PlaceBounds(s[1..], after, i - 1);
      assert Place(s, next)[i] == Place(s[1..], after)[i - 1];
    }
  }

  /** The first segment, and the rest from the next free address on. */
  lemma PlaceHead(s: seq<Segment>, next: word)
    requires s != [] && next % PAGE == 0 && next + Needed(s) < TWO_64
    ensures var after := if NeedsAddress(s[0]) then After(next, s[0]) else next;
      && Place(s, next) != [] && Place(s, next)[1..] == Place(s[1..], after)
      && Place(s, next)[0] == (if NeedsAddress(s[0]) then s[0].(vaddr := next, paddr := next) else s[0])
      && after % PAGE == 0 && after + Needed(s[1..]) == next + Needed(s)
      && (NeedsAddress(s[0]) ==> next + s[0].psize <= after)
  {
    hide W64, PageUp, After;
    if NeedsAddress(s[0]) { AfterIs(next, s[0]); }
  }

  lemma {:induction false} PlaceOrder(s: seq<Segment>, next: word, i: nat, j: nat)
    requires i < j < |s| && NeedsAddress(s[i]) && NeedsAddress(s[j]) && next % PAGE == 0 && next + Needed(s) < TWO_64
    ensures |Place(s, next)| == |s|
    ensures Place(s, next)[i].vaddr + s[i].psize <= Place(s, next)[j].vaddr
  {
    hide Place, Needed, After;
    PlaceFrame(s, next, i);
    PlaceHead(s, next);
    var after := if NeedsAddress(s[0]) then After(next, s[0]) else next;
    var rest := Place(s, next)[1..];
    PlaceFrame(s[1..], after, j - 1);
    assert Place(s, next)[j] == rest[j - 1];
    if i == 0 {
      PlaceBounds(s[1..], after, j - 1);
    } else {
      PlaceOrder(s[1..], after, i - 1, j - 1);
      assert Place(s, next)[i] == rest[i - 1];
    }
  }

  lemma {:induction false} PlaceExactly(s: seq<Segment>, next: word, i: nat)
    requires i < |s| && NeedsAddress(s[i]) && next % PAGE == 0 && next + Needed(s) < TWO_64
    ensures |Place(s, next)| == |s| && Place(s, next)[i].vaddr == next + Needed(s[..i])
  {
    PlaceFrame(s, next, i);
    if i > 0 {
      if NeedsAddress(s[0]) { AfterIs(next, s[0]); }
      var after := if NeedsAddress(s[0]) then After(next, s[0]) else next;
      PlaceFrame(s[1..], after, i - 1);
      PlaceExactly(s[1..], after, i - 1);
      assert Place(s, next)[i] == Place(s[1..], after)[i - 1];
      assert s[..i][1..] == s[1..][..i - 1] && s[..i][0] == s[0];
    }
  }

  /** The address given: the first page behind every PT_LOAD, and whole pages for each segment placed before. */
  lemma PlacedExactly(s: seq<Segment>, i: nat)
    requires NoOverflow(s) && i < |s| && NeedsAddress(s[i])
    ensures |Fixed(s)| == |s| && Fixed(s)[i].vaddr == AlignPage(MaxLoadEnd(s)) + Needed(s[..i])
  {
    hide Place, W64, AlignPage;
    PageUpIs(MaxLoadEnd(s));
    NextIs(s);
    PlaceExactly(s, PageUp(MaxLoadEnd(s)), i);
  }

  /**
    Every placed segment lies on a page of its own behind every PT_LOAD, apart from
    the other placed ones, and nothing else changes.
   */
  lemma Placement(s: seq<Segment>)
    requires NoOverflow(s)
    ensures |Fixed(s)| == |s|
    ensures forall i :: 0 <= i < |s| && !NeedsAddress(s[i]) ==> Fixed(s)[i] == s[i]
    ensures forall i :: 0 <= i < |s| && NeedsAddress(s[i]) ==>
              var a := Fixed(s)[i].vaddr;
              Fixed(s)[i] == s[i].(vaddr := a, paddr := a) && a % PAGE == 0 && a + s[i].psize < TWO_64
    ensures forall i, j :: 0 <= i < |s| && 0 <= j < |s| && NeedsAddress(s[i]) && s[j].kind == Load ==>
              s[j].vaddr + s[j].vsize <= Fixed(s)[i].vaddr
    ensures forall i, j :: 0 <= i < j < |s| && NeedsAddress(s[i]) && NeedsAddress(s[j]) ==>
              Fixed(s)[i].vaddr + s[i].psize <= Fixed(s)[j].vaddr
  {
    hide Place, W64, AlignPage;
    var next := PageUp(MaxLoadEnd(s));
    assert next == AlignPage(MaxLoadEnd(s)) by { PageUpIs(MaxLoadEnd(s)); }
    if s != [] { PlaceFrame(s, next, 0); } else { PlaceEmpty(next); }
    forall i | 0 <= i < |s| ensures !NeedsAddress(s[i]) ==> Fixed(s)[i] == s[i]
      ensures NeedsAddress(s[i]) ==> var a := Fixed(s)[i].vaddr; Fixed(s)[i] == s[i].(vaddr := a, paddr := a)
    {
      PlaceFrame(s, next, i);
    }
    forall i | 0 <= i < |s| && NeedsAddress(s[i])
      ensures var a := Fixed(s)[i].vaddr; a % PAGE == 0 && a + s[i].psize < TWO_64 && next <= a
    {
      PlaceBounds(s, next, i);
    }
    forall j | 0 <= j < |s| && s[j].kind == Load ensures s[j].vaddr + s[j].vsize <= next {
      MaxLoadEndBounds(s, j);
    }
    forall i, j | 0 <= i < j < |s| && NeedsAddress(s[i]) && NeedsAddress(s[j])
      ensures Fixed(s)[i].vaddr + s[i].psize <= Fixed(s)[j].vaddr
    {
      PlaceOrder(s, next, i, j);
    }
  }

  lemma {:induction false} NeededSum(a: seq<Segment>, b: seq<Segment>)
    ensures Needed(a + b) == Needed(a) + Needed(b)
  {
    hide AlignPage;
    if a == [] {
      assert a + b == b;
    } else {
      NeededSum(a[1..], b);
      assert (a + b)[0] == a[0] && (a + b)[1..] == a[1..] + b;
    }
  }

  /**
    Segments are spaced by their size in the file. In memory two placed ones stay apart
    exactly when the first is no longer there than the pages the file sizes from it up to
    the second take.
   */
  lemma MemoryApart(s: seq<Segment>, i: nat, j: nat)
    requires NoOverflow(s) && i < j < |s| && NeedsAddress(s[i]) && NeedsAddress(s[j])
    ensures |Fixed(s)| == |s|
    ensures Fixed(s)[i].vaddr + s[i].vsize <= Fixed(s)[j].vaddr <==> s[i].vsize <= Needed(s[i..j])
  {
    hide Place, Fixed, Needed;
    PlacedExactly(s, i);
    PlacedExactly(s, j);
    assert s[..j] == s[..i] + s[i..j];
    NeededSum(s[..i], s[i..j]);
  }

  const SAMPLE_LOAD := Segment(Load, 0x400000, 0x400000, 0x1000, 0x1000)
  const LONG_NOTE := Segment(Note, 0, 0, 0x2000, 16)
  const SHORT_NOTE := Segment(Note, 0, 0, 16, 16)

  lemma SampleSizes()
    ensures Needed([SAMPLE_LOAD]) == 0 && Needed([LONG_NOTE]) == 0x1000 && Needed([SHORT_NOTE]) == 0x1000
  {
    assert [SAMPLE_LOAD][1..] == [] && [LONG_NOTE][1..] == [] && [SHORT_NOTE][1..] == [];
  }

  lemma SampleEnd(s: seq<Segment>)
    requires s == [SAMPLE_LOAD, LONG_NOTE, SHORT_NOTE]
    ensures MaxLoadEnd(s) == 0x401000
  {
    assert s[..2] == [SAMPLE_LOAD, LONG_NOTE] && s[..2][..1] == [SAMPLE_LOAD] && [SAMPLE_LOAD][..0] == [];
    assert MaxLoadEnd([SAMPLE_LOAD]) == 0x401000;
    assert MaxLoadEnd(s[..2]) == 0x401000;
  }

  /** A note longer in memory than in the file runs into the next one. */
  lemma MemoryOverlaps()
    ensures var s := [SAMPLE_LOAD, LONG_NOTE, SHORT_NOTE];
      NoOverflow(s) && |Fixed(s)| == 3 && Fixed(s)[1].vaddr <= Fixed(s)[2].vaddr < Fixed(s)[1].vaddr + s[1].vsize
  {
    hide Fixed, Place, Needed, MaxLoadEnd;
    var s := [SAMPLE_LOAD, LONG_NOTE, SHORT_NOTE];
    SampleEnd(s);
    SampleSizes();
    assert s == [SAMPLE_LOAD] + ([LONG_NOTE] + [SHORT_NOTE]) && s[1..2] == [LONG_NOTE];
    NeededSum([LONG_NOTE], [SHORT_NOTE]);
    NeededSum([SAMPLE_LOAD], [LONG_NOTE] + [SHORT_NOTE]);
    MemoryApart(s, 1, 2);
    Placement(s);
  }

  lemma PlaceEmpty(next: word)
    ensures Place([], next) == []
  {
  }

  lemma PageUpIs(x: word)
    requires AlignPage(x) < TWO_64
    ensures PageUp(x) == AlignPage(x)
  {
    assert AlignPage(x) / 0x1000 * 0x1000 == AlignPage(x) && x <= AlignPage(x);
  }

  /** The first segment in need. */
  function FirstInNeed(s: seq<Segment>): (k: nat)
    ensures k <= |s|
    ensures k < |s| ==> NeedsAddress(s[k])
    ensures forall i :: 0 <= i < k ==> !NeedsAddress(s[i])
  {
    if s == [] || NeedsAddress(s[0]) then 0 else 1 + FirstInNeed(s[1..])
  }

  lemma {:induction false} FirstTakesNext(s: seq<Segment>, next: word)
    requires FirstInNeed(s) < |s|
    ensures |Place(s, next)| == |s| && Place(s, next)[FirstInNeed(s)].vaddr == next
  {
    PlaceFrame(s, next, 0);
    if !NeedsAddress(s[0]) { FirstTakesNext(s[1..], next); }
  }

  /** No PT_NOTE is left without an address exactly when none was, or some PT_LOAD ends above zero. */
  lemma AllNotesVisible(s: seq<Segment>)
    requires NoOverflow(s)
    ensures (forall x :: x in Fixed(s) ==> !NeedsAddress(x)) <==> (forall x :: x in s ==> !NeedsAddress(x)) || MaxLoadEnd(s) > 0
  {
    hide Place, W64, NoOverflow, AlignPage;
    var next := PageUp(MaxLoadEnd(s));
    assert MaxLoadEnd(s) <= next && (MaxLoadEnd(s) == 0 ==> next == 0) && next % PAGE == 0 && next + Needed(s) < TWO_64 by {
      NextIs(s);
    }
    Placement(s);
    var k := FirstInNeed(s);
    if k == |s| {
      assert Fixed(s) == s;
    } else {
      assert s[k] in s;
      FirstTakesNext(s, next);
      assert Fixed(s)[k] in Fixed(s) && Fixed(s)[k].kind == Note;
      if MaxLoadEnd(s) > 0 {
        forall i | 0 <= i < |s| ensures !NeedsAddress(Fixed(s)[i]) {
          if NeedsAddress(s[i]) { PlaceBounds(s, next, i); }
        }
      }
    }
  }

  /** Without a PT_LOAD a note stays at address zero. */
  lemma NoteStaysHidden()
    ensures var s := [Segment(Note, 0, 0, 16, 16)]; NoOverflow(s) && NeedsAddress(Fixed(s)[0])
  {
    var s := [Segment(Note, 0, 0, 16, 16)];
    assert s[..0] == [] && s[1..] == [];
    assert MaxLoadEnd(s) == 0 && Needed(s) == 0x1000;
    AllNotesVisible(s);
    assert s[0] in s;
  }

  lemma NextIs(s: seq<Segment>)
    requires NoOverflow(s)
    ensures var next := PageUp(MaxLoadEnd(s));
      MaxLoadEnd(s) <= next && (MaxLoadEnd(s) == 0 ==> next == 0) && next % PAGE == 0 && next + Needed(s) < TWO_64
  {
    PageUpIs(MaxLoadEnd(s));
  }

  // ---- Running it again ---------------------------------------------------

  lemma {:induction false} PlaceNothing(s: seq<Segment>, next: word)
    requires forall x :: x in s ==> !NeedsAddress(x)
    ensures Place(s, next) == s
  {
    if s != [] {
      assert s[0] in s;
      PlaceNothing(s[1..], next);
    }
  }

  lemma {:induction false} PlaceAgain(s: seq<Segment>, next: word)
    requires next % PAGE == 0 && next + Needed(s) < TWO_64
    ensures Place(Place(s, next), next) == Place(s, next)
    ensures next > 0 ==> forall x :: x in Place(s, next) ==> !NeedsAddress(x)
  {
    if s == [] {
      PlaceEmpty(next);
    } else {
      hide Place, Needed, After;
      PlaceHead(s, next);
      var after: word := if NeedsAddress(s[0]) then After(next, s[0]) else next;
      var head, rest := Place(s, next)[0], Place(s[1..], after);
      PlaceAgain(s[1..], after);
      HeadTail(Place(s, next));
      PlaceCons(head, rest, next);
      if NeedsAddress(s[0]) {
        if next == 0 {
          assert head == s[0].(vaddr := next, paddr := next);
          SameAfter(head, s[0], next);
        } else {
          assert next <= after;
          PlaceNothing(rest, next);
        }
      }
      if next > 0 {
        forall x | x in Place(s, next) ensures !NeedsAddress(x) {
          if x != head { assert x in rest; }
        }
      }
    }
  }

  lemma PlaceCons(head: Segment, rest: seq<Segment>, next: word)
    ensures Place([head] + rest, next) ==
            if NeedsAddress(head) then [head.(vaddr := next, paddr := next)] + Place(rest, After(next, head)) else [head] + Place(rest, next)
  {
    hide After;
    assert ([head] + rest)[1..] == rest;
  }

  lemma SameAfter(a: Segment, b: Segment, next: word)
    requires a.psize == b.psize
    ensures After(next, a) == After(next, b)
  {
  }

  lemma {:induction false} PlaceKeepsLoads(s: seq<Segment>, next: word)
    ensures |Place(s, next)| == |s| && MaxLoadEnd(Place(s, next)) == MaxLoadEnd(s)
  {
    if s != [] { PlaceFrame(s, next, 0); } else { PlaceEmpty(next); }
    forall i | 0 <= i < |s| ensures Place(s, next)[i].kind == s[i].kind && (s[i].kind == Load ==> Place(s, next)[i] == s[i]) {
      PlaceFrame(s, next, i);
    }
    SameLoads(s, Place(s, next));
  }

  lemma {:induction false} SameLoads(s: seq<Segment>, t: seq<Segment>)
    requires |s| == |t|
    requires forall i :: 0 <= i < |s| ==> t[i].kind == s[i].kind && (s[i].kind == Load ==> t[i] == s[i])
    ensures MaxLoadEnd(s) == MaxLoadEnd(t)
  {
    if s != [] { SameLoads(s[..|s| - 1], t[..|t| - 1]); }
  }

  /** Fixing is done once and for all: a second run changes nothing. */
  lemma FixTwice(s: seq<Segment>)
    requires NoOverflow(s)
    ensures Fixed(Fixed(s)) == Fixed(s)
  {
    hide Place, NoOverflow;
    NextIs(s);
    PlaceKeepsLoads(s, PageUp(MaxLoadEnd(s)));
    PlaceAgain(s, PageUp(MaxLoadEnd(s)));
  }
}
