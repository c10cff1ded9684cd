/**
  Images at which the note writer and the section reader do less than they are meant to:
  the conditions of the laws are not empty.
 */
module ImageExamples {
  import opened Bytes
  import opened ElfImage
  import opened NoteCodec
  import opened NoteMapping
  import opened NoteWriter
  import opened NoteWriterLaws
  import opened Options
  import opened SampleImage
  import opened SectionReader

  function NameA(): seq<byte> {
    [65]
  }

  /** A note without data, and two versions of one with data. */
  function Bare(): Note {
    Note(NameA(), [])
  }

  function OldNote(): Note {
    Note(NameA(), [1])
  }

  function NewerNote(): Note {
    Note(NameA(), [2])
  }

  lemma NotSmol(n: Note)
    requires n.name == NameA()
    ensures !IsSmol([n])
  {
    assert |PressedData()| == 12;
  }

  lemma SmallWord(v: byte)
    ensures ToLE(v, 4) == [v, 0, 0, 0]
  {
    assert ToLE(0, 3) == [0] + ToLE(0, 2) && ToLE(0, 2) == [0, 0];
  }

  /** The note of name "A" and data [1], byte for byte. */
  lemma NoteBytes()
    ensures Chunk(OldNote()) == [2, 0, 0, 0] + [1, 0, 0, 0] + [0, 0, 0, 0] + [65, 0, 0, 0] + [1, 0, 0, 0]
  {
    hide ToLE;
    SmallWord(2);
    SmallWord(1);
    SmallWord(0);
    var n := OldNote();
    assert n.name + [0] + Zeros(2) == [65, 0, 0, 0] && n.desc + Zeros(3) == [1, 0, 0, 0];
    assert Chunk(n) == Header(n) + (n.name + [0] + Zeros(2)) + (n.desc + Zeros(3));
  }

  // ---- A dynamically linked image -----------------------------------------

  /** A PT_LOAD that ends behind the table and is longer in memory, an interpreter, and a PT_NOTE to reuse. */
  function DynamicEntries(memsz: nat): seq<Phdr> {
    [Phdr(PT_LOAD, 0, 0x400000, 232, memsz), Phdr(PT_INTERP, 0, 0, 0, 0), Phdr(PT_NOTE, 0, 0, 0, 0)]
  }

  function DynamicImage(memsz: nat): (r: seq<byte>)
    ensures |r| == 240
  {
    Image(DynamicEntries(memsz), [1, 1, 1, 1, 1, 1, 1, 1])
  }

  lemma DynamicLoad(memsz: nat)
    ensures var ps := DynamicEntries(memsz);
      LastNote(ps, 3) == 2 && LastLoad(ps, 3) == 0 && HasType(ps, PT_INTERP)
  {
    var ps := DynamicEntries(memsz);
    assert ps[1].ptype == PT_INTERP;
    assert LastLoad(ps, 1) == 0;
    assert LastLoad(ps, 2) == 0;
  }

  lemma DynamicHeaders(memsz: nat)
    requires memsz < TWO_32
    ensures var img := DynamicImage(memsz);
      && Writable(img) && TableBehindHeader(img) && Headers(img) == DynamicEntries(memsz)
      && TargetIndex(img) == 2 && LoadIndex(img) == 0 && At(TableOf(img), TableOf(img).count) == 232
      && OldRegion(img) == []
  {
    hide Field, Image, LastLoad, LastNote, At;
    var ps := DynamicEntries(memsz);
    ImageHeaders(ps, [1, 1, 1, 1, 1, 1, 1, 1]);
    DynamicLoad(memsz);
    AtIs(TableOf(DynamicImage(memsz)), 3);
  }

  lemma BareNotes(img: seq<byte>)
    requires Writable(img) && OldRegion(img) == []
    ensures AllNotes(img, [Bare()]) == Chunk(Bare()) && |AllNotes(img, [Bare()])| == 16
  {
    hide OldRegion, Writable;
    NothingSeen(NameA());
    assert OldNotes(img) == [];
    assert Update([], [Bare()]) == [Chunk(Bare())];
    assert Flatten([Chunk(Bare())]) == Chunk(Bare());
  }

  lemma DynamicWrite(memsz: nat)
    requires 232 <= memsz < TWO_32
    ensures var img, notes := DynamicImage(memsz), [Bare()];
      && Writable(img) && Extends(img, notes) && FitsFile(img, notes) && AllNotes(img, notes) != []
      && ExtendedLoad(img) == Phdr(PT_LOAD, 0, 0x400000, 232, memsz)
      && SoundLoad(ExtendedLoad(img), |img|, |AllNotes(img, notes)|)
  {
    hide Field, DynamicImage, LastLoad, LastNote, Headers, OldRegion, AllNotes, Writable, HasType;
    var img := DynamicImage(memsz);
    DynamicHeaders(memsz);
    DynamicLoad(memsz);
    BareNotes(img);
    NotSmol(Bare());
  }

  /** Eight bytes behind the PT_LOAD in the file come to lie under its zero-filled tail. */
  lemma ZeroFillLost()
    ensures var img, notes := DynamicImage(240), [Bare()];
      && Writable(img) && Extends(img, notes)
      && var was, l, out := ExtendedLoad(img), NewLoad(img, notes), Output(img, notes);
         && l.offset + l.filesz <= |out| && was.memsz <= l.memsz
         && !(forall k :: was.filesz <= k < was.memsz ==> Loaded(out, l, k) == 0)
  {
    hide Field, LastLoad, LastNote, Headers, AllNotes, Writable, NewLoad, Output, ExtendedLoad, Extends, FitsFile, Loaded;
    var img := DynamicImage(240);
    DynamicHeaders(240);
    DynamicWrite(240);
    ZeroFillExactly(img, [Bare()]);
    assert img[232] == 1;
  }

  /** A longer tail reaches the addresses the notes get. */
  lemma NotesInZeroFill()
    ensures var img, notes := DynamicImage(1000), [Bare()];
      && Writable(img) && Extends(img, notes)
      && var was, n := ExtendedLoad(img), NewNote(img, notes);
         !(forall a :: Within(a, n.vaddr, n.memsz) ==> !Within(a, was.vaddr + was.filesz, was.memsz - was.filesz))
  {
    hide Field, LastLoad, LastNote, Headers, AllNotes, Writable, NewNote, ExtendedLoad, Extends, FitsFile, DynamicImage, Within;
    DynamicWrite(1000);
    NotesMissZeroFill(DynamicImage(1000), [Bare()]);
  }

  // ---- A statically linked image ------------------------------------------

  function StaticEntries(): seq<Phdr> {
    [Phdr(PT_LOAD, 0, 0, 176, 176), Phdr(PT_NOTE, 0, 0, 0, 0)]
  }

  /** An image of 176 bytes without an interpreter: the notes get the page at 0x10001000. */
  lemma StaticAddress()
    ensures var img := Image(StaticEntries(), []);
      && |img| == 176 && Writable(img) && Writable(Output(img, [Bare()]))
      && Target(Output(img, [Bare()])).vaddr == 0x10001000
      && Headers(Output(img, [Bare()]))[0] == Phdr(PT_LOAD, 0, 0, 176, 176)
  {
    hide Field, Image, LastLoad, Output, AllNotes;
    var img := Image(StaticEntries(), []);
    ImageHeaders(StaticEntries(), []);
    assert Headers(img)[0].ptype == PT_LOAD && !HasType(Headers(img), PT_INTERP);
    assert OldRegion(img) == [];
    BareNotes(img);
    NotesStayUnmapped(img, [Bare()]);
  }

  // ---- An entry that wraps the address space ------------------------------

  /** A PT_NOTE 16 bytes below the end of the address space. */
  function WrappedEntry(size: nat): Phdr {
    Phdr(PT_NOTE, TWO_64 - 16, 0, size, size)
  }

  function WrappedImage(size: nat): (r: seq<byte>)
    ensures |r| == 120
  {
    Image([WrappedEntry(size)], [])
  }

  lemma WrappedTarget(size: nat)
    requires size < TWO_64
    ensures Writable(WrappedImage(size)) && Target(WrappedImage(size)) == WrappedEntry(size)
  {
    hide Field, Image;
    ImageHeaders([WrappedEntry(size)], []);
  }

  /** The wrapped sum passes the check of the end, though the notes would start behind the image. */
  lemma WrappedLetThrough()
    ensures var img := WrappedImage(32);
      Writable(img) && ScanLetThrough(img) && Target(img).offset > |img| && !Sane(img)
  {
    hide WrappedImage, Writable, Target, W64;
    WrappedTarget(32);
    WrappedSum(32);
  }

  lemma WrappedSum(size: nat)
    requires 16 <= size < TWO_64
    ensures W64(TWO_64 - 16 + size) == size - 16
  {
  }

  /** A wrapped sum behind the image is no trouble: the old notes are skipped. */
  lemma WrappedSkipped()
    ensures var img := WrappedImage(200);
      Writable(img) && Sane(img) && !ScanLetThrough(img) && OldRegion(img) == []
  {
    hide WrappedImage, Writable, Target, W64;
    WrappedTarget(200);
    WrappedSum(200);
  }

  // ---- Two note segments --------------------------------------------------

  /** A PT_NOTE with a note in the body, and an empty one behind it in the table, which the writer reuses. */
  function TwoNoteEntries(): seq<Phdr> {
    [Phdr(PT_NOTE, 176, 0, 20, 20), Phdr(PT_NOTE, 0, 0, 0, 0)]
  }

  function TwoNoteImage(): seq<byte> {
    Image(TwoNoteEntries(), Chunk(OldNote()))
  }

  lemma ShortChunk(n: Note)
    requires |n.name| == 1 && |n.desc| == 1
    ensures |Chunk(n)| == 20 && Encodable(n) && WithinCaps(n)
  {
  }

  lemma TwoNoteHeaders()
    ensures var img := TwoNoteImage();
      && Writable(img) && TableBehindHeader(img) && Headers(img) == TwoNoteEntries() && TargetIndex(img) == 1
      && TableOf(img) == Table(64, 56, 2) && At(TableOf(img), 2) == 176 && |img| == 196
      && OldRegion(img) == [] && img[176..196] == Chunk(OldNote())
  {
    hide Field, LastLoad, HeaderBytes, TableBytes, Chunk;
    ShortChunk(OldNote());
    ImageHeaders(TwoNoteEntries(), Chunk(OldNote()));
    AtIs(TableOf(TwoNoteImage()), 2);
    assert LastNote(TwoNoteEntries(), 2) == 1;
  }

  /** The earlier segment shows its note. */
  lemma TwoNoteEarlier()
    ensures var img := TwoNoteImage();
      Writable(img) && Settled(img) && Extract(img, Earlier(img), NameA()) == Some([1])
  {
    hide Field, LastLoad, LastNote, Chunk, TwoNoteImage, Find, Walk, Scan, Seen, At, TableOf;
    var img := TwoNoteImage();
    TwoNoteHeaders();
    var p := TwoNoteEntries()[0];
    assert Earlier(img) == [p];
    FindInSegmentSeen(img, p, NameA());
    OneNoteSeen(OldNote());
    assert Extract(img, [p], NameA()) == Some([1]) by { assert [p][1..] == []; }
  }

  lemma OneNoteSeen(n: Note)
    requires |n.name| == 1 && |n.desc| == 1
    ensures Scan(Chunk(n)) == [Chunk(n)] && Seen(Scan(Chunk(n)), n.name) == Some(n.desc)
  {
    hide Field, Chunk, Fits, Total, NameOf, DescOf, Capped, NameSize, DescSize;
    ShortChunk(n);
    ChunkRoundTrip(n);
    NothingSeen(n.name);
    ScanStep(Chunk(n), []);
    assert Chunk(n) + [] == Chunk(n);
    assert [Chunk(n)][1..] == [];
  }

  lemma TwoNoteWrite()
    ensures var img, notes := TwoNoteImage(), [NewerNote()];
      Writable(img) && TableBehindHeader(img) && FitsFile(img, notes) && AllEncodable(notes) && DistinctNames(notes)
  {
    hide Field, Chunk, TwoNoteImage, OldRegion, Writable, Headers, TableOf;
    var img := TwoNoteImage();
    TwoNoteHeaders();
    NothingSeen(NameA());
    ShortChunk(NewerNote());
    assert Update([], [NewerNote()]) == [Chunk(NewerNote())];
    assert Flatten([Chunk(NewerNote())]) == Chunk(NewerNote());
  }

  /** Written with new data, the note still reads with the old. */
  lemma StaleNoteWins()
    ensures var img, notes := TwoNoteImage(), [NewerNote()];
      Writable(img) && Writable(Output(img, notes))
      && Extract(Output(img, notes), Headers(Output(img, notes)), NameA()) == Some([1])
  {
    hide Field, Chunk, TwoNoteImage, OldRegion, Writable, Headers, TableOf, Settled, Extract, Output, FitsFile;
    TwoNoteWrite();
    TwoNoteEarlier();
    ExtractAfterWrite(TwoNoteImage(), [NewerNote()], 0);
  }

  // ---- A name over the limit ----------------------------------------------

  function LongName(): (r: seq<byte>)
    ensures |r| == NAME_CAP
  {
    seq(NAME_CAP, _ => 65)
  }

  lemma LongChunk()
    ensures var n := Note(LongName(), []);
      Encodable(n) && !WithinCaps(n) && |Chunk(n)| < 2000
  {
    hide LongName;
  }

  /** The writer writes a name of 1024 bytes, and the reader does not see it. */
  lemma LongNameUnread()
    ensures var img, notes := DynamicImage(232), [Note(LongName(), [])];
      && Writable(img) && Writable(Output(img, notes)) && AllChunks(Update(OldNotes(img), notes))
      && Walk(OldRegion(Output(img, notes))) != Update(OldNotes(img), notes)
  {
    hide Field, Chunk, DynamicImage, OldRegion, Writable, Headers, TableOf, Output, Walk, LongName, Capped, Encodable, WithinCaps;
    var img, n := DynamicImage(232), Note(LongName(), []);
    DynamicHeaders(232);
    NothingSeen(NameA());
    LongChunk();
    ChunkRoundTrip(n);
    assert OldNotes(img) == [];
    assert Update([], [n]) == [Chunk(n)];
    assert Flatten([Chunk(n)]) == Chunk(n);
    WalkAfterWrite(img, [n]);
    assert !AllCapped([Chunk(n)]) by { assert [Chunk(n)][0] == Chunk(n); }
  }
}
