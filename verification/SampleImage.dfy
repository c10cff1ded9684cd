/**
  Small ELF images made of a list of program header entries and a body, for the laws
  that need an image at which the code does less than it is meant to.
 */
module SampleImage {
  import opened Bytes
  import opened ElfImage
  import opened NoteCodec
  import opened NoteWriter
  import opened NoteWriterLaws

  const HEADER_LEN: nat := 64

  /** The header of a 64-bit little-endian image with `n` entries behind it. */
  function HeaderBytes(n: nat): (r: seq<byte>)
    ensures |r| == HEADER_LEN
  {
    [0x7f, 'E' as int, 'L' as int, 'F' as int, 2, 1] + Zeros(26) + ToLE(64, 8) + Zeros(14) + ToLE(56, 2) + ToLE(n, 2) + Zeros(6)
  }

  function EntryBytes(p: Phdr): (r: seq<byte>)
    ensures |r| == ENTRY_LEN
  {
    ToLE(p.ptype, 4) + Zeros(4) + ToLE(p.offset, 8) + ToLE(p.vaddr, 8) + Zeros(8) + ToLE(p.filesz, 8) + ToLE(p.memsz, 8) + Zeros(8)
  }

  function TableBytes(ps: seq<Phdr>): (r: seq<byte>)
    ensures |r| == ENTRY_LEN * |ps|
  {
    if ps == [] then [] else EntryBytes(ps[0]) + TableBytes(ps[1..])
  }

  function Image(ps: seq<Phdr>, body: seq<byte>): (r: seq<byte>)
    ensures |r| == HEADER_LEN + ENTRY_LEN * |ps| + |body|
  {
    HeaderBytes(|ps|) + TableBytes(ps) + body
  }

  /** The values fit their fields. */
  predicate Storable(p: Phdr) {
    p.ptype < TWO_32 && p.offset < TWO_64 && p.vaddr < TWO_64 && p.filesz < TWO_64 && p.memsz < TWO_64
  }

  lemma HeaderSlices(n: nat)
    ensures var h := HeaderBytes(n);
      h[32..40] == ToLE(64, 8) && h[54..56] == ToLE(56, 2) && h[56..58] == ToLE(n, 2)
  {
    hide ToLE;
  }

  lemma HeaderMagic(n: nat)
    ensures HeaderBytes(n)[..6] == [0x7f, 'E' as int, 'L' as int, 'F' as int, 2, 1]
  {
    hide ToLE;
  }

  lemma EntrySlices(p: Phdr)
    ensures var e := EntryBytes(p);
      && e[0..4] == ToLE(p.ptype, 4) && e[8..16] == ToLE(p.offset, 8) && e[16..24] == ToLE(p.vaddr, 8)
      && e[32..40] == ToLE(p.filesz, 8) && e[40..48] == ToLE(p.memsz, 8)
  {
  }

  lemma {:induction false} TableSlice(ps: seq<Phdr>, i: nat)
    requires i < |ps|
    ensures TableBytes(ps)[ENTRY_LEN * i..ENTRY_LEN * i + ENTRY_LEN] == EntryBytes(ps[i])
  {
    hide EntryBytes;
    if i > 0 {
      TableSlice(ps[1..], i - 1);
      var rest := TableBytes(ps[1..]);
      assert TableBytes(ps)[ENTRY_LEN..] == rest;
      assert TableBytes(ps)[ENTRY_LEN..][ENTRY_LEN * (i - 1)..ENTRY_LEN * i] == TableBytes(ps)[ENTRY_LEN * i..ENTRY_LEN * i + ENTRY_LEN];
    }
  }

  /** A stored field reads back. */
  lemma FieldIn(s: seq<byte>, at: nat, e: seq<byte>, i: nat, v: nat, k: nat)
    requires at + |e| <= |s| && s[at..at + |e|] == e && i + k <= |e| && e[i..i + k] == ToLE(v, k) && v < Pow256(k)
    ensures Field(s, at + i, k) == v
  {
    SliceSlice(s, at, at + |e|, i, i + k);
    FieldIs(s, at + i, v, k);
  }

  lemma EntryIn(s: seq<byte>, at: nat, p: Phdr)
    requires at + ENTRY_LEN <= |s| && s[at..at + ENTRY_LEN] == EntryBytes(p) && Storable(p)
    ensures Entry(s, at) == p
  {
    hide Field, EntryBytes;
    Widths();
    EntrySlices(p);
    FieldIn(s, at, EntryBytes(p), 0, p.ptype, 4);
    FieldIn(s, at, EntryBytes(p), P_OFFSET, p.offset, 8);
    FieldIn(s, at, EntryBytes(p), P_VADDR, p.vaddr, 8);
    FieldIn(s, at, EntryBytes(p), P_FILESZ, p.filesz, 8);
    FieldIn(s, at, EntryBytes(p), P_MEMSZ, p.memsz, 8);
  }

  lemma ImageTable(ps: seq<Phdr>, body: seq<byte>)
    requires 0 < |ps| < 0x1_0000
    ensures var img := Image(ps, body);
      IsElf64LE(img) && TableOf(img) == Table(HEADER_LEN, ENTRY_LEN, |ps|) && TableFits(img, TableOf(img)) && TableBehindHeader(img)
  {
    hide Field, HeaderBytes, TableBytes, At;
    Widths();
    var img, h := Image(ps, body), HeaderBytes(|ps|);
    HeaderSlices(|ps|);
    HeaderMagic(|ps|);
    assert img[..6] == h[..6];
    assert img[0..0 + |h|] == h;
    FieldIn(img, 0, h, 32, 64, 8);
    FieldIn(img, 0, h, 54, 56, 2);
    FieldIn(img, 0, h, 56, |ps|, 2);
    AtIs(TableOf(img), |ps|);
  }

  /** The image holds exactly the entries it was made of. */
  lemma ImageHeaders(ps: seq<Phdr>, body: seq<byte>)
    requires 0 < |ps| < 0x1_0000 && forall p :: p in ps ==> Storable(p)
    ensures var img := Image(ps, body);
      IsElf64LE(img) && TableFits(img, TableOf(img)) && TableBehindHeader(img) && Headers(img) == ps
    ensures TableOf(Image(ps, body)) == Table(HEADER_LEN, ENTRY_LEN, |ps|)
  {
    hide Field, HeaderBytes, TableBytes, EntryBytes, At, Phdrs, Entry, TableOf;
    ImageTable(ps, body);
    var img, t := Image(ps, body), TableOf(Image(ps, body));
    forall i | 0 <= i < |ps| ensures Headers(img)[i] == ps[i] {
      PhdrsAt(img, t, t.count, i);
      AtIs(t, i);
      TableSlice(ps, i);
      TableInImage(ps, body, i);
      assert ps[i] in ps;
      EntryIn(img, At(t, i), ps[i]);
    }
  }

  lemma TableInImage(ps: seq<Phdr>, body: seq<byte>, i: nat)
    requires i < |ps|
    ensures ENTRY_LEN * i + ENTRY_LEN <= |TableBytes(ps)|
    ensures Image(ps, body)[HEADER_LEN + ENTRY_LEN * i..HEADER_LEN + ENTRY_LEN * i + ENTRY_LEN]
         == TableBytes(ps)[ENTRY_LEN * i..ENTRY_LEN * i + ENTRY_LEN]
  {
    hide HeaderBytes, TableBytes;
    var h, t := HeaderBytes(|ps|), TableBytes(ps);
    assert (h + t + body)[|h|..|h| + |t|] == t;
    SliceSlice(h + t + body, |h|, |h| + |t|, ENTRY_LEN * i, ENTRY_LEN * i + ENTRY_LEN);
  }
}
