/**
  Where the appended notes land in memory: for a dynamically linked image, whose
  last PT_LOAD is stretched over them, with what the stretch does to that
  segment's zero-filled tail; and for any other image, which keeps its loads.
 */
module NoteMapping {
  import opened Alignment
  import opened Bytes
  import opened ElfImage
  import opened NoteCodec
  import opened NoteWriter
  import opened NoteWriterLaws

  /** A PT_LOAD as a linker writes it: its bytes are in the file and its addresses do not wrap. */
  predicate SoundLoad(l: Phdr, size: nat, added: nat) {
    && l.offset + l.filesz <= size
    && l.filesz <= l.memsz
    && l.vaddr + l.memsz + size + added < TWO_64
  }

  /** The stretched PT_LOAD and the PT_NOTE of the output. */
  function NewLoad(img: seq<byte>, notes: seq<Note>): Phdr
    requires Writable(img) && Extends(img, notes)
  {
    NewEntry(img, notes, LoadIndex(img))
  }

  function NewNote(img: seq<byte>, notes: seq<Note>): Phdr
    requires Writable(img)
  {
    NewEntry(img, notes, TargetIndex(img))
  }

  /**
    The stretched PT_LOAD keeps its start, ends exactly at the new end of file and
    keeps `p_filesz <= p_memsz`; the notes lie inside it in the file and in memory,
    at the same distance between address and offset.
   */
  lemma NotesAreMapped(img: seq<byte>, notes: seq<Note>)
    requires Writable(img) && Extends(img, notes) && FitsFile(img, notes)
    requires SoundLoad(ExtendedLoad(img), |img|, |AllNotes(img, notes)|)
    ensures var was, l, n := ExtendedLoad(img), NewLoad(img, notes), NewNote(img, notes);
      && l.offset == was.offset && l.vaddr == was.vaddr
      && l.memsz - was.memsz == l.filesz - was.filesz
      && l.offset + l.filesz == |Output(img, notes)|
      && l.filesz <= l.memsz
      && n.offset == |img| && n.filesz == n.memsz == |AllNotes(img, notes)|
      && l.offset <= n.offset && n.offset + n.filesz == l.offset + l.filesz
      && l.vaddr <= n.vaddr && n.vaddr + n.memsz <= l.vaddr + l.memsz
      && n.vaddr - n.offset == l.vaddr - l.offset
  {
    hide Field, Entry, Phdrs, W64, AllNotes, TableOf, PlanOf;
    OutputSplit(img, notes);
    var l := ExtendedLoad(img);
    assert LoadIndex(img) != TargetIndex(img);
    assert FileEnd(l) == l.offset + l.filesz;
    assert Gap(img) == |img| - (l.offset + l.filesz);
  }

  /** A compression is told by the name of one of its notes. */
  predicate Compresses(notes: seq<Note>) {
    exists k :: 0 <= k < |notes| && notes[k].name == Ascii("pressed_data")
  }

  /** A PT_LOAD is stretched exactly in an image with an interpreter and a PT_LOAD, unless a compression is written. */
  lemma ExtendsExactly(img: seq<byte>, notes: seq<Note>)
    requires Writable(img)
    ensures IsDynamic(img, notes) <==> HasType(Headers(img), PT_INTERP) && !Compresses(notes)
    ensures Extends(img, notes) <==> HasType(Headers(img), PT_INTERP) && HasType(Headers(img), PT_LOAD) && !Compresses(notes)
  {
    hide Field, Headers, TableOf, TargetIndex;
    var hs := Headers(img);
    if k :| 0 <= k < |notes| && notes[k].name == Ascii("pressed_data") { assert notes[k] in notes; }
    if i :| 0 <= i < |hs| && hs[i].ptype == PT_LOAD { LastLoadEndsLast(hs, |hs|, i); }
    if LoadIndex(img) >= 0 { assert hs[LoadIndex(img)].ptype == PT_LOAD; }
  }

  /** The address given to notes that no PT_LOAD covers. */
  lemma UnmappedAddress(img: seq<byte>, notes: seq<Note>)
    requires Writable(img) && FitsFile(img, notes) && !IsDynamic(img, notes)
    ensures var v := NoteVaddr(img, notes);
      v % 0x1000 == 0 && 0x10000000 + |img| <= v < 0x10000000 + |img| + 0x1000
  {
    hide Field, Headers, TableOf, TargetIndex, AllNotes, W64;
    assert W64(UNMAPPED_BASE + AlignPage(|img|)) == UNMAPPED_BASE + AlignPage(|img|);
    assert 0x10000000 % 0x1000 == 0;
  }

  /**
    Without an interpreter, or in a compression, no PT_LOAD changes, and the notes get a
    page of their own, 0x10000000 above the file size: behind every PT_LOAD whose memory
    ends below that.
   */
  lemma NotesStayUnmapped(img: seq<byte>, notes: seq<Note>)
    requires Writable(img) && TableBehindHeader(img) && FitsFile(img, notes)
    requires !HasType(Headers(img), PT_INTERP) || Compresses(notes)
    ensures Writable(Output(img, notes)) && |Headers(Output(img, notes))| == |Headers(img)|
    ensures TargetIndex(Output(img, notes)) == TargetIndex(img)
    ensures var was, now, n := Headers(img), Headers(Output(img, notes)), Target(Output(img, notes));
      && n.offset == |img| && n.filesz == n.memsz == |AllNotes(img, notes)|
      && n.vaddr % 0x1000 == 0 && 0x10000000 + |img| <= n.vaddr < 0x10000000 + |img| + 0x1000
      && forall i :: 0 <= i < |was| && was[i].ptype == PT_LOAD ==>
           now[i] == was[i] && (was[i].vaddr + was[i].memsz <= 0x10000000 + |img| ==> was[i].vaddr + was[i].memsz <= n.vaddr)
  {
    hide Field, Headers, TableOf, AllNotes, Output, IsDynamic, NoteVaddr, LastNote, HasType;
    ExtendsExactly(img, notes);
    UnmappedAddress(img, notes);
    OutputWritable(img, notes);
    OutputHeaders(img, notes, TargetIndex(img));
    assert Target(img).ptype == PT_NOTE by { LastNoteIs(img); }
    forall i | 0 <= i < |Headers(img)| && Headers(img)[i].ptype == PT_LOAD
      ensures Headers(Output(img, notes))[i] == Headers(img)[i]
    {
      OutputHeaders(img, notes, i);
    }
  }

  lemma LastNoteIs(img: seq<byte>)
    requires Writable(img)
    ensures Target(img).ptype == PT_NOTE
  {
  }

  /** With an interpreter and no PT_LOAD at all, the address is the file size. */
  lemma NotesWithoutLoad(img: seq<byte>, notes: seq<Note>)
    requires Writable(img) && TableBehindHeader(img) && FitsFile(img, notes)
    requires HasType(Headers(img), PT_INTERP) && !HasType(Headers(img), PT_LOAD) && !Compresses(notes)
    ensures Writable(Output(img, notes)) && Target(Output(img, notes)).vaddr == |img|
  {
    hide Field, Headers, TableOf, AllNotes, Output, LastNote, HasType, LastLoad;
    ExtendsExactly(img, notes);
    OutputWritable(img, notes);
  }

  /** The byte at distance `k` from the start of a loaded segment: file contents, then zeros. */
  function Loaded(s: seq<byte>, l: Phdr, k: nat): byte
    requires k < l.memsz && l.offset + l.filesz <= |s|
  {
    if k < l.filesz then s[l.offset + k] else 0
  }

  /**
    The stretch turns the zero-filled tail of the segment into file contents. It
    still loads as zeros exactly when the file bytes that follow the segment, up
    to the length of the tail, are zeros.
   */
  lemma ZeroFillKept(img: seq<byte>, notes: seq<Note>)
    requires Writable(img) && Extends(img, notes) && FitsFile(img, notes)
    requires SoundLoad(ExtendedLoad(img), |img|, |AllNotes(img, notes)|)
    ensures var was, l, out := ExtendedLoad(img), NewLoad(img, notes), Output(img, notes);
      && l.offset + l.filesz <= |out| && was.memsz <= l.memsz
      && ((forall k :: was.filesz <= k < was.memsz ==> Loaded(out, l, k) == 0)
          <==> (forall j :: was.offset + was.filesz <= j < was.offset + was.memsz && j < |out| ==> out[j] == 0))
  {
    hide Field, Entry, Phdrs, W64, AllNotes, TableOf, PlanOf, Output;
    NotesAreMapped(img, notes);
    var was, l, out := ExtendedLoad(img), NewLoad(img, notes), Output(img, notes);
    assert was.memsz <= l.memsz;
    if forall k :: was.filesz <= k < was.memsz ==> Loaded(out, l, k) == 0 {
      forall j | was.offset + was.filesz <= j < was.offset + was.memsz && j < |out|
        ensures out[j] == 0
      {
        assert Loaded(out, l, j - was.offset) == out[j];
      }
    }
  }

  /**
    On the image: with the header table in front of the tail, it still loads as zeros
    exactly when the image's bytes under it are zeros, and so are those of the notes as
    far as they come to lie under it.
   */
  lemma ZeroFillExactly(img: seq<byte>, notes: seq<Note>)
    requires Writable(img) && Extends(img, notes) && FitsFile(img, notes)
    requires SoundLoad(ExtendedLoad(img), |img|, |AllNotes(img, notes)|)
    requires At(TableOf(img), TableOf(img).count) <= ExtendedLoad(img).offset + ExtendedLoad(img).filesz
    ensures var was, l, out, all := ExtendedLoad(img), NewLoad(img, notes), Output(img, notes), AllNotes(img, notes);
      && l.offset + l.filesz <= |out| && was.memsz <= l.memsz
      && ((forall k :: was.filesz <= k < was.memsz ==> Loaded(out, l, k) == 0)
          <==> (forall j :: was.offset + was.filesz <= j < was.offset + was.memsz && j < |img| ==> img[j] == 0)
               && (forall j :: 0 <= j < |all| && |img| + j < was.offset + was.memsz ==> all[j] == 0))
  {
    hide Field, Entry, Phdrs, W64, AllNotes, TableOf, PlanOf, Output, Loaded, Body, NewEntry, At;
    ZeroFillKept(img, notes);
    OutputSplit(img, notes);
    var was, out, all := ExtendedLoad(img), Output(img, notes), AllNotes(img, notes);
    forall j | was.offset + was.filesz <= j < |img| ensures out[j] == img[j] {
      OffTableKept(img, notes, j);
    }
    assert forall j :: 0 <= j < |all| ==> out[|img| + j] == all[j];
    if forall j :: was.offset + was.filesz <= j < was.offset + was.memsz && j < |out| ==> out[j] == 0 {
      forall j | 0 <= j < |all| && |img| + j < was.offset + was.memsz ensures all[j] == 0 {
        assert out[|img| + j] == all[j];
      }
    }
    if (forall j :: was.offset + was.filesz <= j < was.offset + was.memsz && j < |img| ==> img[j] == 0)
       && (forall j :: 0 <= j < |all| && |img| + j < was.offset + was.memsz ==> all[j] == 0) {
      forall j | was.offset + was.filesz <= j < was.offset + was.memsz && j < |out| ensures out[j] == 0 {
        if j >= |img| { assert out[|img| + (j - |img|)] == all[j - |img|]; }
      }
    }
  }

  predicate Within(a: int, start: int, size: int) {
    start <= a < start + size
  }

  /** The notes stay off the addresses of the zero-filled tail exactly when that tail, laid over the file, ends before them. */
  lemma NotesMissZeroFill(img: seq<byte>, notes: seq<Note>)
    requires Writable(img) && Extends(img, notes) && FitsFile(img, notes)
    requires SoundLoad(ExtendedLoad(img), |img|, |AllNotes(img, notes)|) && AllNotes(img, notes) != []
    ensures var was, n := ExtendedLoad(img), NewNote(img, notes);
      (forall a :: Within(a, n.vaddr, n.memsz) ==> !Within(a, was.vaddr + was.filesz, was.memsz - was.filesz))
      <==> was.filesz == was.memsz || was.offset + was.memsz <= |img|
  {
    hide Field, Entry, Phdrs, W64, AllNotes, TableOf, PlanOf, Output, NewEntry;
    NotesAreMapped(img, notes);
    var was, n := ExtendedLoad(img), NewNote(img, notes);
    if was.filesz < was.memsz && was.offset + was.memsz > |img| {
      assert Within(n.vaddr, n.vaddr, n.memsz);
      assert Within(n.vaddr, was.vaddr + was.filesz, was.memsz - was.filesz);
    }
  }
}
