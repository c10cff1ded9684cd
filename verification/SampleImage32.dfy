/** 32-bit images made of a list of segments and a body, as the PT_NOTE finder reads them. */
module SampleImage32 {
  import opened Bytes
  import opened NoteCodec
  import opened Options
  import opened PtnoteFinder
  import SampleImage

  const HEADER_LEN: nat := 52
  const ENTRY_LEN: nat := 32

  /** The header of a 32-bit little-endian image with `n` entries behind it. */
  function HeaderBytes(n: nat): (r: seq<byte>)
    ensures |r| == HEADER_LEN
  {
    [0x7f, 'E' as int, 'L' as int, 'F' as int, 1, 1] + Zeros(22) + ToLE(52, 4) + Zeros(10) + ToLE(32, 2) + ToLE(n, 2) + Zeros(6)
  }

  /** Type, offset, two addresses, file size, and the words behind. */
  function EntryBytes(p: Segment): (r: seq<byte>)
    ensures |r| == ENTRY_LEN
  {
    ToLE(p.ptype, 4) + ToLE(p.offset, 4) + Zeros(8) + ToLE(p.filesz, 4) + Zeros(12)
  }

  function TableBytes(ps: seq<Segment>): (r: seq<byte>)
    ensures |r| == ENTRY_LEN * |ps|
  {
    if ps == [] then [] else EntryBytes(ps[0]) + TableBytes(ps[1..])
  }

  function Image(ps: seq<Segment>, body: seq<byte>): (r: seq<byte>)
    ensures |r| == HEADER_LEN + ENTRY_LEN * |ps| + |body|
  {
    HeaderBytes(|ps|) + TableBytes(ps) + body
  }

  predicate Storable(p: Segment) {
    p.ptype < TWO_32 && p.offset < TWO_32 && p.filesz < TWO_32
  }

  lemma HeaderSlices(n: nat)
    ensures var h := HeaderBytes(n);
      h[28..32] == ToLE(52, 4) && h[42..44] == ToLE(32, 2) && h[44..46] == ToLE(n, 2)
  {
    hide ToLE;
  }

  lemma HeaderMagic(n: nat)
    ensures HeaderBytes(n)[..6] == [0x7f, 'E' as int, 'L' as int, 'F' as int, 1, 1]
  {
    hide ToLE;
  }

  lemma EntrySlices(p: Segment)
    ensures var e := EntryBytes(p);
      e[0..4] == ToLE(p.ptype, 4) && e[4..8] == ToLE(p.offset, 4) && e[16..20] == ToLE(p.filesz, 4)
  {
    hide ToLE;
  }

  lemma {:induction false} TableSlice(ps: seq<Segment>, i: nat)
    requires i < |ps|
    ensures TableBytes(ps)[ENTRY_LEN * i..ENTRY_LEN * i + ENTRY_LEN] == EntryBytes(ps[i])
  {
    hide EntryBytes;
    if i > 0 {
      TableSlice(ps[1..], i - 1);
      assert TableBytes(ps)[ENTRY_LEN..] == TableBytes(ps[1..]);
      assert TableBytes(ps)[ENTRY_LEN..][ENTRY_LEN * (i - 1)..ENTRY_LEN * i] == TableBytes(ps)[ENTRY_LEN * i..ENTRY_LEN * i + ENTRY_LEN];
    }
  }

  /** A stored entry reads back. */
  lemma EntryIn(s: seq<byte>, at: nat, p: Segment)
    requires at + ENTRY_LEN <= |s| && s[at..at + ENTRY_LEN] == EntryBytes(p) && Storable(p)
    ensures SegmentAt(s, ELF32, at) == p
  {
    hide Field, EntryBytes;
    Widths();
    EntrySlices(p);
    SampleImage.FieldIn(s, at, EntryBytes(p), 0, p.ptype, 4);
    SampleImage.FieldIn(s, at, EntryBytes(p), 4, p.offset, 4);
    SampleImage.FieldIn(s, at, EntryBytes(p), 16, p.filesz, 4);
  }

  /** The header read from the image says where the table is. */
  lemma ImageHeader(ps: seq<Segment>, body: seq<byte>, stack: seq<byte>)
    requires 0 < |ps| < 0x1_0000 && |stack| == 64
    ensures var file := Image(ps, body);
      var h := HeaderOf(file, stack);
      && Accepted(file, h) && ClassOf(h) == ELF32
      && Field(h, 28, 4) == HEADER_LEN && Field(h, 42, 2) == ENTRY_LEN && Field(h, 44, 2) == |ps|
  {
    hide Field, HeaderBytes, TableBytes;
    Widths();
    HeaderSlices(|ps|);
    HeaderMagic(|ps|);
    var file := Image(ps, body);
    var h, b := HeaderOf(file, stack), HeaderBytes(|ps|);
    assert h == file[..64];
    assert h[0..0 + |b|] == b;
    assert h[..6] == b[..6];
    SampleImage.FieldIn(h, 0, b, 28, 52, 4);
    SampleImage.FieldIn(h, 0, b, 42, 32, 2);
    SampleImage.FieldIn(h, 0, b, 44, |ps|, 2);
  }

  lemma TableInImage(ps: seq<Segment>, body: seq<byte>)
    ensures Image(ps, body)[HEADER_LEN..HEADER_LEN + ENTRY_LEN * |ps|] == TableBytes(ps)
  {
    hide HeaderBytes, TableBytes;
  }

  /** The buffer holds the entries the table was made of. */
  lemma BufferedSegments(ps: seq<Segment>, frame: seq<byte>)
    requires |ps| <= 128 && |frame| == FRAME && forall p :: p in ps ==> Storable(p)
    ensures TableLen(|ps|, ENTRY_LEN) == ENTRY_LEN * |ps| <= PHDR_BUFFER
    ensures Segments(TableBuffer(TableBytes(ps), frame), ELF32, ENTRY_LEN, |ps|) == ps
  {
    hide Field, TableBytes, EntryBytes, Segments;
    var buf := TableBuffer(TableBytes(ps), frame);
    assert Buffered(buf, ELF32, ENTRY_LEN, |ps|);
    forall i | 0 <= i < |ps| ensures Segments(buf, ELF32, ENTRY_LEN, |ps|)[i] == ps[i] {
      SegmentsAt(buf, ELF32, ENTRY_LEN, |ps|, i);
      TableSlice(ps, i);
      InBuffer(TableBytes(ps), frame, ENTRY_LEN * i);
      assert ps[i] in ps;
      EntryIn(buf, i * ENTRY_LEN, ps[i]);
    }
  }

  lemma InBuffer(table: seq<byte>, frame: seq<byte>, at: nat)
    requires at + ENTRY_LEN <= |table| <= PHDR_BUFFER && |frame| == FRAME
    ensures TableBuffer(table, frame)[at..at + ENTRY_LEN] == table[at..at + ENTRY_LEN]
  {
  }

  /** The finder reads a 32-bit image as exactly the segments it was made of. */
  lemma ImageSegments(ps: seq<Segment>, body: seq<byte>, stack: seq<byte>, frame: seq<byte>)
    requires 0 < |ps| <= 128 && |stack| == 64 && |frame| == FRAME && forall p :: p in ps ==> Storable(p)
    ensures var file := Image(ps, body);
      Accepted(file, HeaderOf(file, stack)) && ReadTable(file, HeaderOf(file, stack), frame) == Some(ps)
  {
    hide Field, HeaderOf, Image, TableBytes, Accepted, Segments, TableLen, TableBuffer;
    ImageHeader(ps, body, stack);
    TableInImage(ps, body);
    BufferedSegments(ps, frame);
  }
}
