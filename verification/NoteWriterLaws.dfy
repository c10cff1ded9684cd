/** What the note writer's output is: its frame, its headers, its notes, and a second write. */
module NoteWriterLaws {
  import opened Bytes
  import opened ElfImage
  import opened NoteCodec
  import opened NoteWriter
  import opened SeaFuse

  /** A patch leaves fields alone that lie apart from it. */
  lemma FieldApart(s: seq<byte>, at: nat, b: seq<byte>, e: nat, k: nat)
    requires at + |b| <= |s| && e + k <= |s| && (e + k <= at || at + |b| <= e)
    ensures Field(Put(s, at, b), e, k) == Field(s, e, k)
  {
    PutAt(s, at, b);
    SameField(Put(s, at, b), e, s, e, k);
  }

  lemma FieldInside(s: seq<byte>, at: nat, b: seq<byte>, i: nat, v: nat, k: nat)
    requires at + |b| <= |s| && i + k <= |b| && v < Pow256(k) && b[i..i + k] == ToLE(v, k)
    ensures Field(Put(s, at, b), at + i, k) == v
  {
    PutAt(s, at, b);
    SliceSlice(Put(s, at, b), at, at + |b|, i, i + k);
    FieldIs(Put(s, at, b), at + i, v, k);
  }

  lemma EntryApart(s: seq<byte>, at: nat, b: seq<byte>, e: nat)
    requires at + |b| <= |s| && e + ENTRY_LEN <= |s| && (e + ENTRY_LEN <= at || at + |b| <= e)
    ensures Entry(Put(s, at, b), e) == Entry(s, e)
  {
    FieldApart(s, at, b, e, 4);
    FieldApart(s, at, b, e + P_OFFSET, 8);
    FieldApart(s, at, b, e + P_VADDR, 8);
    FieldApart(s, at, b, e + P_FILESZ, 8);
    FieldApart(s, at, b, e + P_MEMSZ, 8);
  }

  lemma SevenFields(a: seq<byte>, b: seq<byte>, c: seq<byte>, d: seq<byte>, e: seq<byte>, f: seq<byte>, g: seq<byte>)
    requires |a| == 4 && |b| == |c| == |d| == |e| == |f| == |g| == 8
    ensures var s := a + b + c + d + e + f + g;
      s[4..12] == b && s[12..20] == c && s[28..36] == e && s[36..44] == f
  {
  }

  /** The rewritten PT_NOTE entry keeps its type and describes the appended bytes. */
  lemma NoteEntryPatched(s: seq<byte>, e: nat, offset: nat, vaddr: nat, size: nat)
    requires e + ENTRY_LEN <= |s| && offset < TWO_64 && vaddr < TWO_64 && size < TWO_64
    ensures Entry(Put(s, e + P_FLAGS, NoteFields(offset, vaddr, size)), e)
         == Phdr(Entry(s, e).ptype, offset, vaddr, size, size)
  {
    hide Field, Put, ToLE;
    Widths();
    var b := NoteFields(offset, vaddr, size);
    SevenFields(ToLE(PF_R, 4), ToLE(offset, 8), ToLE(vaddr, 8), ToLE(vaddr, 8), ToLE(size, 8), ToLE(size, 8), ToLE(4, 8));
    FieldApart(s, e + P_FLAGS, b, e, 4);
    FieldInside(s, e + P_FLAGS, b, 4, offset, 8);
    FieldInside(s, e + P_FLAGS, b, 12, vaddr, 8);
    FieldInside(s, e + P_FLAGS, b, 28, size, 8);
    FieldInside(s, e + P_FLAGS, b, 36, size, 8);
  }

  /** The stretched PT_LOAD entry changes in its two sizes only. */
  lemma LoadEntryPatched(s: seq<byte>, e: nat, filesz: nat, memsz: nat)
    requires e + ENTRY_LEN <= |s| && filesz < TWO_64 && memsz < TWO_64
    ensures Entry(Put(s, e + P_FILESZ, LoadSizes(filesz, memsz)), e)
         == Entry(s, e).(filesz := filesz, memsz := memsz)
  {
    Widths();
    var b := LoadSizes(filesz, memsz);
    FieldApart(s, e + P_FILESZ, b, e, 4);
    FieldApart(s, e + P_FILESZ, b, e + P_OFFSET, 8);
    FieldApart(s, e + P_FILESZ, b, e + P_VADDR, 8);
    FieldInside(s, e + P_FILESZ, b, 0, filesz, 8);
    FieldInside(s, e + P_FILESZ, b, 8, memsz, 8);
  }

  // ---- What a plan does to the image --------------------------------------

  /** Two entry offsets are the same or do not overlap. */
  predicate Apart(e: nat, f: nat) {
    e + ENTRY_LEN <= f || f + ENTRY_LEN <= e
  }

  lemma PatchedFrame(img: seq<byte>, p: Plan, j: nat)
    requires Applies(p, img) && j < |img|
    ensures Patched(img, p)[j] == img[j]
         || p.noteAt + 4 <= j < p.noteAt + 56
         || (p.load.To? && p.load.at + 32 <= j < p.load.at + 48)
  {
    hide Put, NoteFields, LoadSizes, Field;
    PutAt(Stretched(img, p), p.noteAt + P_FLAGS, NoteFields(|img|, p.vaddr, |p.all|));
    if p.load.To? {
      PutAt(img, p.load.at + P_FILESZ, LoadSizes(p.load.filesz, p.load.memsz));
    }
  }

  /** Entry `e` of the patched image. */
  function EntryAfter(img: seq<byte>, p: Plan, e: nat): Phdr
    requires e + ENTRY_LEN <= |img|
  {
    var h := Entry(img, e);
    if e == p.noteAt then Phdr(h.ptype, |img|, p.vaddr, |p.all|, |p.all|)
    else if p.load.To? && e == p.load.at then h.(filesz := p.load.filesz, memsz := p.load.memsz)
    else h
  }

  predicate Bounded(img: seq<byte>, p: Plan) {
    |img| < TWO_64 && p.vaddr < TWO_64 && |p.all| < TWO_64
    && (p.load.To? ==> p.load.filesz < TWO_64 && p.load.memsz < TWO_64)
  }

  lemma PatchedEntry(img: seq<byte>, p: Plan, e: nat)
    requires Applies(p, img) && Bounded(img, p) && e + ENTRY_LEN <= |img|
    requires e == p.noteAt || Apart(e, p.noteAt)
    requires p.load.To? ==> e == p.load.at || Apart(e, p.load.at)
    ensures Entry(Patched(img, p), e) == EntryAfter(img, p, e)
  {
    hide Field, Entry, LoadSizes, NoteFields;
    var s := Stretched(img, p);
    if p.load.To? {
      if e == p.load.at {
        LoadEntryPatched(img, e, p.load.filesz, p.load.memsz);
      } else {
        EntryApart(img, p.load.at + P_FILESZ, LoadSizes(p.load.filesz, p.load.memsz), e);
      }
    }
    if e == p.noteAt {
      NoteEntryPatched(s, e, |img|, p.vaddr, |p.all|);
    } else {
      EntryApart(s, p.noteAt + P_FLAGS, NoteFields(|img|, p.vaddr, |p.all|), e);
    }
  }

  lemma EntriesDistinct(t: Table, i: nat, j: nat)
    requires t.esz >= ENTRY_LEN
    ensures if i == j then At(t, i) == At(t, j) else At(t, i) != At(t, j) && Apart(At(t, i), At(t, j))
  {
    if i < j { EntriesApart(t, i, j); }
    if j < i { EntriesApart(t, j, i); }
  }

  // ---- The output ---------------------------------------------------------

  /** The image without its appended notes. */
  function Body(img: seq<byte>, notes: seq<Note>): (r: seq<byte>)
    requires Writable(img)
    ensures |r| == |img|
  {
    Patched(img, PlanOf(img, notes))
  }

  /**
    The output is the image followed by the notes, and the image's bytes change
    only in the reused entry's fields and in the stretched entry's sizes.
   */
  lemma OutputFrame(img: seq<byte>, notes: seq<Note>, j: nat)
    requires Writable(img) && j < |img|
    ensures Output(img, notes)[..|img|] == Body(img, notes) && Output(img, notes)[|img|..] == AllNotes(img, notes)
    ensures Body(img, notes)[j] == img[j]
         || TargetAt(img) + 4 <= j < TargetAt(img) + 56
         || (Extends(img, notes) && LoadAt(img) + 32 <= j < LoadAt(img) + 48)
  {
    PatchedFrame(img, PlanOf(img, notes), j);
  }

  lemma OutputSplit(img: seq<byte>, notes: seq<Note>)
    requires Writable(img)
    ensures Output(img, notes) == Body(img, notes) + AllNotes(img, notes)
  {
  }

  /** Sizes stay below the file size limit of `off_t`. */
  predicate FitsFile(img: seq<byte>, notes: seq<Note>)
    requires Writable(img)
  {
    |img| + |AllNotes(img, notes)| < TWO_63
  }

  /** The entry the output's table holds at place `i`. */
  function NewEntry(img: seq<byte>, notes: seq<Note>, i: nat): Phdr
    requires Writable(img) && i < |Headers(img)|
  {
    var h, size := Headers(img)[i], |AllNotes(img, notes)|;
    if i == TargetIndex(img) then Phdr(PT_NOTE, |img|, NoteVaddr(img, notes), size, size)
    else if Extends(img, notes) && i == LoadIndex(img) then
      h.(filesz := W64(h.filesz + Gap(img) + size), memsz := W64(h.memsz + Gap(img) + size))
    else h
  }

  /** Every entry of the output: only the reused and the stretched one differ, and no type changes. */
  lemma OutputEntry(img: seq<byte>, notes: seq<Note>, i: nat)
    requires Writable(img) && FitsFile(img, notes) && i < |Headers(img)|
    ensures At(TableOf(img), i) + ENTRY_LEN <= |img|
    ensures Entry(Body(img, notes), At(TableOf(img), i)) == NewEntry(img, notes, i)
    ensures NewEntry(img, notes, i).ptype == Headers(img)[i].ptype
  {
    hide W64, Entry, IsDynamic, Gap, AllNotes, NoteVaddr, Field, At, Phdrs, LastNote, LastLoad, TableOf, Patched;
    var t := TableOf(img);
    PhdrsAt(img, t, t.count, i);
    EntriesDistinct(t, i, TargetIndex(img));
    if Extends(img, notes) {
      EntriesDistinct(t, i, LoadIndex(img));
    }
    PatchedEntry(img, PlanOf(img, notes), At(t, i));
  }

  // ---- Reading the output back --------------------------------------------

  lemma FieldPrefix(s: seq<byte>, r: seq<byte>, e: nat, k: nat)
    requires e + k <= |s|
    ensures Field(s + r, e, k) == Field(s, e, k)
  {
    SameField(s + r, e, s, e, k);
  }

  lemma EntryPrefix(s: seq<byte>, r: seq<byte>, e: nat)
    requires e + ENTRY_LEN <= |s|
    ensures Entry(s + r, e) == Entry(s, e)
  {
    FieldPrefix(s, r, e, 4);
    FieldPrefix(s, r, e + P_OFFSET, 8);
    FieldPrefix(s, r, e + P_VADDR, 8);
    FieldPrefix(s, r, e + P_FILESZ, 8);
    FieldPrefix(s, r, e + P_MEMSZ, 8);
  }

  /** The table stands behind the 64-byte header, as every linker puts it. */
  predicate TableBehindHeader(img: seq<byte>)
    requires |img| >= 64
  {
    TableOf(img).off >= 64
  }

  lemma SameHeader(s: seq<byte>, t: seq<byte>)
    requires |s| >= 64 && |t| >= 64 && s[..64] == t[..64]
    ensures TableOf(s) == TableOf(t) && (IsElf64LE(s) <==> IsElf64LE(t))
  {
    SliceSlice(s, 0, 64, 32, 40);
    SliceSlice(s, 0, 64, 54, 56);
    SliceSlice(s, 0, 64, 56, 58);
    SliceSlice(t, 0, 64, 32, 40);
    SliceSlice(t, 0, 64, 54, 56);
    SliceSlice(t, 0, 64, 56, 58);
    SameField(s, 32, t, 32, 8);
    SameField(s, 54, t, 54, 2);
    SameField(s, 56, t, 56, 2);
    assert forall j :: 0 <= j < 6 ==> s[j] == s[..64][j] && t[j] == t[..64][j];
  }

  lemma PlanBehindHeader(img: seq<byte>, notes: seq<Note>)
    requires Writable(img) && TableBehindHeader(img)
    ensures var p := PlanOf(img, notes);
      p.noteAt >= 64 && (p.load.To? ==> p.load.at >= 64)
  {
    hide Entry, Field, NoteVaddr, AllNotes, Gap, IsDynamic, W64;
  }

  /** The header does not change: the table keeps its place, its entry size and its count. */
  lemma OutputHeader(img: seq<byte>, notes: seq<Note>)
    requires Writable(img) && TableBehindHeader(img)
    ensures TableOf(Output(img, notes)) == TableOf(img) && IsElf64LE(Output(img, notes))
    ensures TableFits(Output(img, notes), TableOf(img))
  {
    hide Entry, Field, NoteVaddr, AllNotes, Gap, IsDynamic, W64, PlanOf;
    var p, out := PlanOf(img, notes), Output(img, notes);
    PlanBehindHeader(img, notes);
    forall j | 0 <= j < 64
      ensures out[j] == img[j]
    {
      PatchedFrame(img, p, j);
    }
    assert out[..64] == img[..64];
    SameHeader(out, img);
  }

  lemma OutputHeaders(img: seq<byte>, notes: seq<Note>, i: nat)
    requires Writable(img) && TableBehindHeader(img) && FitsFile(img, notes) && i < |Headers(img)|
    ensures |Output(img, notes)| >= 64 && TableFits(Output(img, notes), TableOf(Output(img, notes)))
    ensures |Headers(Output(img, notes))| == |Headers(img)|
    ensures Headers(Output(img, notes))[i] == NewEntry(img, notes, i)
  {
    hide Entry, Field, NoteVaddr, AllNotes, Gap, IsDynamic, W64, PlanOf, NewEntry, Output, Body;
    OutputHeader(img, notes);
    var t := TableOf(img);
    OutputEntry(img, notes, i);
    PhdrsAt(Output(img, notes), t, t.count, i);
    OutputSplit(img, notes);
    EntryPrefix(Body(img, notes), AllNotes(img, notes), At(t, i));
  }

  lemma {:induction false} LastNoteTypes(ps: seq<Phdr>, qs: seq<Phdr>, n: nat)
    requires n <= |ps| == |qs| && forall i :: 0 <= i < |ps| ==> ps[i].ptype == qs[i].ptype
    ensures LastNote(ps, n) == LastNote(qs, n)
  {
    if n > 0 { LastNoteTypes(ps, qs, n - 1); }
  }

  /** A second write would reuse the same entry, which now describes the appended notes. */
  lemma OutputWritable(img: seq<byte>, notes: seq<Note>)
    requires Writable(img) && TableBehindHeader(img) && FitsFile(img, notes)
    ensures var out := Output(img, notes);
      && Writable(out) && TableBehindHeader(out) && TargetIndex(out) == TargetIndex(img)
      && Target(out) == NewEntry(img, notes, TargetIndex(img)) && Sane(out)
  {
    hide Entry, Field, NoteVaddr, AllNotes, Gap, IsDynamic, W64, PlanOf, Output;
    OutputHeader(img, notes);
    var out := Output(img, notes);
    forall i | 0 <= i < |Headers(img)|
      ensures |Headers(out)| == |Headers(img)|
      ensures Headers(out)[i] == NewEntry(img, notes, i)
      ensures Headers(out)[i].ptype == Headers(img)[i].ptype
    {
      OutputHeaders(img, notes, i);
      OutputEntry(img, notes, i);
    }
    OutputHeaders(img, notes, TargetIndex(img));
    LastNoteTypes(Headers(out), Headers(img), |Headers(img)|);
  }

  /** What else is stored in the reused entry: it is readable only, its physical address is the virtual one, and it is aligned to 4. */
  lemma NoteEntryRest(img: seq<byte>, notes: seq<Note>)
    requires Writable(img) && FitsFile(img, notes)
    ensures var out, e := Output(img, notes), TargetAt(img);
      && e + ENTRY_LEN <= |out|
      && Field(out, e + 4, 4) == 4 && Field(out, e + 48, 8) == 4
      && Field(out, e + 24, 8) == Field(out, e + 16, 8) == NoteVaddr(img, notes)
  {
    hide Field, ToLE, Put, PlanOf, Stretched, NoteVaddr, AllNotes, Headers, TableOf, NoteFields, Output;
    var p, e := PlanOf(img, notes), TargetAt(img);
    assert p.noteAt == e && p.vaddr == NoteVaddr(img, notes) && p.all == AllNotes(img, notes) by { PlanParts(img, notes); }
    var s, b := Stretched(img, p), NoteFields(|img|, p.vaddr, |p.all|);
    Widths();
    RestFields(|img|, p.vaddr, |p.all|);
    FieldInside(s, e + P_FLAGS, b, 0, 4, 4);
    FieldInside(s, e + P_FLAGS, b, 12, p.vaddr, 8);
    FieldInside(s, e + P_FLAGS, b, 20, p.vaddr, 8);
    FieldInside(s, e + P_FLAGS, b, 44, 4, 8);
    OutputSplit(img, notes);
    FieldPrefix(Body(img, notes), AllNotes(img, notes), e + 4, 4);
    FieldPrefix(Body(img, notes), AllNotes(img, notes), e + 16, 8);
    FieldPrefix(Body(img, notes), AllNotes(img, notes), e + 24, 8);
    FieldPrefix(Body(img, notes), AllNotes(img, notes), e + 48, 8);
  }

  lemma PlanParts(img: seq<byte>, notes: seq<Note>)
    requires Writable(img)
    ensures var p := PlanOf(img, notes);
      p.noteAt == TargetAt(img) && p.vaddr == NoteVaddr(img, notes) && p.all == AllNotes(img, notes)
  {
    hide Field, NoteVaddr, AllNotes, Headers, TableOf;
  }

  lemma RestFields(offset: nat, vaddr: nat, size: nat)
    ensures var b := NoteFields(offset, vaddr, size);
      b[0..4] == ToLE(4, 4) && b[12..20] == ToLE(vaddr, 8) && b[20..28] == ToLE(vaddr, 8) && b[44..52] == ToLE(4, 8)
  {
    hide ToLE;
  }

  // ---- Segments in front of the reused one --------------------------------

  /** The segment's bytes are in the file and off the header table. */
  predicate OffTable(img: seq<byte>, p: Phdr)
    requires |img| >= 64
  {
    var t := TableOf(img);
    p.offset + p.filesz <= |img| && (p.offset + p.filesz <= t.off || At(t, t.count) <= p.offset)
  }

  /** So are those of every PT_NOTE in front of the reused one. */
  predicate Settled(img: seq<byte>)
    requires Writable(img)
  {
    forall i :: 0 <= i < TargetIndex(img) && Headers(img)[i].ptype == PT_NOTE ==> OffTable(img, Headers(img)[i])
  }

  lemma EntryInTable(t: Table, i: nat)
    requires t.esz >= ENTRY_LEN && i < t.count
    ensures At(t, i) + ENTRY_LEN <= At(t, t.count)
  {
    EntriesApart(t, i, t.count);
  }

  /** Bytes off the header table are not written. */
  lemma OffTableKept(img: seq<byte>, notes: seq<Note>, j: nat)
    requires Writable(img) && j < |img| && (j < TableOf(img).off || At(TableOf(img), TableOf(img).count) <= j)
    ensures Body(img, notes)[j] == img[j] && |Output(img, notes)| >= |img| && Output(img, notes)[j] == img[j]
  {
    hide Field, Entry, Phdrs, W64, AllNotes, TableOf, PlanOf, Body, LastNote, LastLoad, At, NoteVaddr;
    OutputFrame(img, notes, j);
    OutputSplit(img, notes);
    EntryInTable(TableOf(img), TargetIndex(img));
    if LoadIndex(img) >= 0 { EntryInTable(TableOf(img), LoadIndex(img)); }
  }

  lemma RangeKept(img: seq<byte>, notes: seq<Note>, p: Phdr)
    requires Writable(img) && OffTable(img, p)
    ensures |Output(img, notes)| >= |img|
    ensures Output(img, notes)[p.offset..p.offset + p.filesz] == img[p.offset..p.offset + p.filesz]
  {
    hide Output, Writable, TableOf, At;
    var out := Output(img, notes);
    assert |out| >= |img| by { OutputSplit(img, notes); }
    forall j | p.offset <= j < p.offset + p.filesz ensures out[j] == img[j] {
      OffTableKept(img, notes, j);
    }
  }

  /** A PT_NOTE in front of the reused one is in the output as it was, entry and bytes. */
  lemma EarlierKept(img: seq<byte>, notes: seq<Note>, i: nat)
    requires Writable(img) && TableBehindHeader(img) && FitsFile(img, notes) && Settled(img) && i < TargetIndex(img)
    ensures var out := Output(img, notes);
      && Writable(out) && TargetIndex(out) == TargetIndex(img) && |out| >= |img|
      && var p, q := Headers(img)[i], Headers(out)[i];
         && p.ptype == q.ptype
         && (p.ptype == PT_NOTE ==>
               q == p && p.offset + p.filesz <= |img| && out[p.offset..p.offset + p.filesz] == img[p.offset..p.offset + p.filesz])
  {
    hide Field, Entry, Phdrs, W64, AllNotes, TableOf, PlanOf, Output, NoteVaddr, Gap, IsDynamic, FitsFile, At, LastNote;
    OutputWritable(img, notes);
    OutputHeaders(img, notes, i);
    assert |Output(img, notes)| >= |img| by { OutputSplit(img, notes); }
    if Headers(img)[i].ptype == PT_NOTE {
      RangeKept(img, notes, Headers(img)[i]);
    }
  }

  lemma FlattenLength(a: seq<seq<byte>>, b: seq<seq<byte>>)
    requires b != [] && b[0] != []
    ensures |Flatten(a + b)| > 0
  {
    FlattenAppend(a, b);
  }

  /** Scanning the rewritten segment gives the updated note list, byte for byte. */
  lemma OutputNotes(img: seq<byte>, notes: seq<Note>)
    requires Writable(img) && TableBehindHeader(img) && FitsFile(img, notes)
    requires notes != [] && AllEncodable(notes)
    ensures Writable(Output(img, notes))
    ensures OldRegion(Output(img, notes)) == AllNotes(img, notes)
    ensures OldNotes(Output(img, notes)) == Update(OldNotes(img), notes)
  {
    RewrittenRegion(img, notes);
    hide Entry, Field, Chunk, Output, OldRegion, Writable;
    ChunksAreChunks(notes);
    var all := Update(OldNotes(img), notes);
    ScanFlatten(all, []);
    assert Flatten(all) + [] == Flatten(all) && all + [] == all;
  }

  /** The rewritten segment is the bytes appended. */
  lemma RewrittenRegion(img: seq<byte>, notes: seq<Note>)
    requires Writable(img) && TableBehindHeader(img) && FitsFile(img, notes)
    requires notes != []
    ensures Writable(Output(img, notes))
    ensures OldRegion(Output(img, notes)) == AllNotes(img, notes)
  {
    hide Entry, Field, NoteVaddr, Gap, IsDynamic, W64, PlanOf, Chunk, Output, Headers, TargetIndex, Body;
    OutputWritable(img, notes);
    OutputSplit(img, notes);
    FlattenLength(Keep(OldNotes(img), Names(notes)), Chunks(notes));
    BehindBody(Body(img, notes), AllNotes(img, notes));
  }

  lemma BehindBody(body: seq<byte>, all: seq<byte>)
    ensures (body + all)[|body|..|body| + |all|] == all
  {
  }

  /**
    Writing twice updates the note list twice: the originals under neither set of
    names, the first notes not named again, the second notes; in the same entry.
   */
  lemma WriteTwice(img: seq<byte>, n1: seq<Note>, n2: seq<Note>)
    requires Writable(img) && TableBehindHeader(img) && n1 != [] && n2 != []
    requires AllEncodable(n1) && AllEncodable(n2) && FitsFile(img, n1)
    requires Writable(Output(img, n1)) ==> FitsFile(Output(img, n1), n2)
    ensures Writable(Output(img, n1))
    ensures var out := Output(Output(img, n1), n2);
      && Writable(out) && TargetIndex(out) == TargetIndex(img)
      && OldNotes(out) == Keep(OldNotes(img), Names(n1) + Names(n2)) + Chunks(Filtered(n1, Names(n2))) + Chunks(n2)
  {
    hide Entry, Field, NoteVaddr, Gap, IsDynamic, W64, PlanOf, Output, Chunk, AllNotes, OldNotes;
    var mid := Output(img, n1);
    OutputWritable(img, n1);
    OutputNotes(img, n1);
    OutputWritable(mid, n2);
    OutputNotes(mid, n2);
    UpdateTwice(OldNotes(img), n1, n2);
  }

  /** Writing the same notes again leaves the note list as it is. */
  lemma WriteAgain(img: seq<byte>, notes: seq<Note>)
    requires Writable(img) && TableBehindHeader(img) && notes != [] && AllEncodable(notes) && FitsFile(img, notes)
    requires Writable(Output(img, notes)) ==> FitsFile(Output(img, notes), notes)
    ensures Writable(Output(img, notes)) && Writable(Output(Output(img, notes), notes))
    ensures OldNotes(Output(Output(img, notes), notes)) == OldNotes(Output(img, notes))
  {
    hide Entry, Field, NoteVaddr, Gap, IsDynamic, W64, PlanOf, Output, Chunk, AllNotes, OldNotes;
    var mid := Output(img, notes);
    OutputWritable(img, notes);
    OutputNotes(img, notes);
    OutputNotes(mid, notes);
    UpdateIdempotent(OldNotes(img), notes);
  }

  // ---- From the input file ------------------------------------------------

  /** The byte a flip changes, or -1. */
  function FlippedAt(s: seq<byte>): int {
    var i := FirstFrom(s, Fuse(), 0);
    if i == -1 then -1 else i + FUSE_LEN - 1
  }

  /** The whole writer changes bytes of its input file in the reused entry, the stretched entry's sizes, and the fuse only. */
  lemma WholeFrame(input: seq<byte>, notes: seq<Note>, flip: bool, j: nat)
    requires Rewrite(Modified(input, flip), notes).Ok? && j < |input|
    ensures var img := Modified(input, flip);
      var out := Rewrite(img, notes).image;
      && |out| == |input| + |AllNotes(img, notes)| && out[|input|..] == AllNotes(img, notes)
      && (out[j] == input[j]
          || TargetAt(img) + 4 <= j < TargetAt(img) + 56
          || (Extends(img, notes) && LoadAt(img) + 32 <= j < LoadAt(img) + 48)
          || (flip && j == FlippedAt(input)))
  {
    hide Field, Entry, Phdrs, W64, AllNotes, TableOf, PlanOf, Output, NoteVaddr, Gap, IsDynamic, FirstFrom, Fuse;
    var img := Modified(input, flip);
    OutputFrame(img, notes, j);
    OutputSplit(img, notes);
  }

  /** A field changes exactly when one of its bytes does. */
  lemma FieldOfUpdate(s: seq<byte>, f: nat, v: byte, e: nat, k: nat)
    requires f < |s| && v != s[f] && e + k <= |s|
    ensures Field(s[f := v], e, k) == Field(s, e, k) <==> !(e <= f < e + k)
  {
    hide Field, ToLE;
    var t := s[f := v];
    if e <= f < e + k {
      FieldBytes(s, e, k);
      FieldBytes(t, e, k);
      assert s[e..e + k][f - e] == s[f] && t[e..e + k][f - e] == v;
    } else {
      assert t[e..e + k] == s[e..e + k];
      SameField(t, e, s, e, k);
    }
  }

  lemma FlippedByte(s: seq<byte>)
    requires FlippedAt(s) != -1
    ensures FUSE_LEN - 1 <= FlippedAt(s) < |s| && s[FlippedAt(s)] == '0' as int
    ensures Flipped(s) == s[FlippedAt(s) := '1' as int]
  {
    var i := FirstFrom(s, Fuse(), 0);
    assert s[i..i + FUSE_LEN][FUSE_LEN - 1] == s[i + FUSE_LEN - 1];
  }

  /** The flip leaves the header's table fields alone exactly when its byte is in neither the entry size nor the count. */
  lemma FlipKeepsTable(input: seq<byte>)
    requires |input| >= 64
    ensures TableOf(Flipped(input)) == TableOf(input) <==> !(54 <= FlippedAt(input) < 58)
  {
    hide Field, FirstFrom, Fuse;
    if FlippedAt(input) != -1 {
      FlippedByte(input);
      FieldOfUpdate(input, FlippedAt(input), '1' as int, 32, 8);
      FieldOfUpdate(input, FlippedAt(input), '1' as int, 54, 2);
      FieldOfUpdate(input, FlippedAt(input), '1' as int, 56, 2);
    }
  }

  /** The flipped byte is in the type of entry `i`. */
  predicate FlipsType(input: seq<byte>, i: nat)
    requires |input| >= 64
  {
    At(TableOf(input), i) <= FlippedAt(input) < At(TableOf(input), i) + 4
  }

  /** With the table fields as they were, it leaves an entry's type alone exactly when its byte is not in it. */
  lemma FlipKeepsType(input: seq<byte>, i: nat)
    requires |input| >= 64 && TableFits(input, TableOf(input)) && i < TableOf(input).count && !(54 <= FlippedAt(input) < 58)
    ensures TableFits(Flipped(input), TableOf(Flipped(input))) && |Headers(Flipped(input))| == |Headers(input)|
    ensures Headers(Flipped(input))[i].ptype == Headers(input)[i].ptype <==> !FlipsType(input, i)
  {
    hide Field, FirstFrom, Fuse, At, Phdrs, TableOf;
    var t := TableOf(input);
    FlipKeepsTable(input);
    PhdrsAt(input, t, t.count, i);
    PhdrsAt(Flipped(input), t, t.count, i);
    if FlippedAt(input) != -1 {
      FlippedByte(input);
      FieldOfUpdate(input, FlippedAt(input), '1' as int, At(t, i), 4);
    }
  }

  /** So the whole writer keeps the table's place, entry size and count and every type, as long as the fuse is in none of them. */
  lemma WholeTable(input: seq<byte>, notes: seq<Note>, flip: bool, i: nat)
    requires |input| >= 64 && TableFits(input, TableOf(input)) && i < TableOf(input).count
    requires flip ==> !(54 <= FlippedAt(input) < 58) && !FlipsType(input, i)
    requires var img := Modified(input, flip);
      Rewrite(img, notes).Ok? && TableBehindHeader(img) && FitsFile(img, notes)
    ensures var out := Rewrite(Modified(input, flip), notes).image;
      && |out| >= 64 && TableOf(out) == TableOf(input) && TableFits(out, TableOf(out))
      && |Headers(out)| == |Headers(input)| && Headers(out)[i].ptype == Headers(input)[i].ptype
  {
    hide Field, FirstFrom, Fuse, At, Phdrs, TableOf, Entry, Output, NoteVaddr, AllNotes, Gap, IsDynamic, W64, PlanOf;
    var img := Modified(input, flip);
    if flip {
      FlipKeepsTable(input);
      FlipKeepsType(input, i);
    }
    OutputHeader(img, notes);
    OutputHeaders(img, notes, i);
    OutputEntry(img, notes, i);
  }
}
