/**
  The tool that reads a section back from an ELF file: it goes through the PT_NOTE
  segments in table order and walks over the notes of each until the name matches.
 */
module SectionReader {
  import opened Bytes
  import opened ElfImage
  import opened NoteCodec
  import opened NoteWriter
  import opened NoteWriterLaws
  import opened Options

  const SEGMENT_CAP: nat := 100 * 1024 * 1024

  /** A PT_NOTE segment the reader takes: not empty, not too large, and readable in full. */
  predicate Readable(file: seq<byte>, p: Phdr) {
    p.ptype == PT_NOTE && p.filesz != 0 && p.filesz <= SEGMENT_CAP
    && p.offset < TWO_63 && p.offset + p.filesz <= |file|
  }

  function FindInSegment(file: seq<byte>, p: Phdr, name: seq<byte>): Option<seq<byte>> {
    if Readable(file, p) then Find(Walk(file[p.offset..p.offset + p.filesz]), name) else None
  }

  /** The data of the first note called `name`, by segments and then by notes. */
  function Extract(file: seq<byte>, segs: seq<Phdr>, name: seq<byte>): Option<seq<byte>> {
    if segs == [] then None
    else
      var r := FindInSegment(file, segs[0], name);
      if r.Some? then r else Extract(file, segs[1..], name)
  }

  // ---- The algorithm ------------------------------------------------------

  lemma FindStep(data: seq<byte>, pos: nat, name: seq<byte>)
    requires pos <= |data|
    ensures Find(Walk(data[pos..]), name) ==
            if !FitsAt(data, pos) || !CappedAt(data, pos) then None
            else if NameAt(data, pos) == name then Some(DescAt(data, pos))
            else Find(Walk(data[pos + TotalAt(data, pos)..]), name)
  {
    WalkFrom(data, pos);
    if FitsAt(data, pos) && CappedAt(data, pos) {
      NoteAtParts(data, pos);
      var c, cs := data[pos..pos + TotalAt(data, pos)], Walk(data[pos + TotalAt(data, pos)..]);
      assert ([c] + cs)[1..] == cs;
    }
  }

  method WalkNotes(data: seq<byte>, name: seq<byte>) returns (found: bool, content: seq<byte>)
    ensures Find(Walk(data), name) == if found then Some(content) else None
  {
    hide Find, Walk, Field;
    found, content := false, [];
    var pos := 0;
    assert data[0..] == data;
    while pos + 12 <= |data|
      invariant pos <= |data|
      invariant Find(Walk(data), name) == Find(Walk(data[pos..]), name)
    {
      FindStep(data, pos, name);
      if !CappedAt(data, pos) { return; }
      var total := TotalAt(data, pos);
      if pos + total > |data| { return; }
      if NameAt(data, pos) == name {
        return true, DescAt(data, pos);
      }
      pos := pos + total;
    }
    FindStep(data, pos, name);
  }

  lemma ExtractFrom(file: seq<byte>, segs: seq<Phdr>, i: nat, name: seq<byte>)
    requires i <= |segs|
    ensures Extract(file, segs[i..], name) ==
            if i == |segs| then None
            else if FindInSegment(file, segs[i], name).Some? then FindInSegment(file, segs[i], name)
            else Extract(file, segs[i + 1..], name)
  {
    if i < |segs| { assert segs[i..][1..] == segs[i + 1..]; }
  }

  method ExtractSection(file: seq<byte>, segs: seq<Phdr>, name: seq<byte>) returns (found: bool, content: seq<byte>)
    ensures Extract(file, segs, name) == if found then Some(content) else None
  {
    hide Find, Walk, Extract;
    found, content := false, [];
    assert segs[0..] == segs;
    for i := 0 to |segs|
      invariant !found && Extract(file, segs, name) == Extract(file, segs[i..], name)
    {
      ExtractFrom(file, segs, i, name);
      var p := segs[i];
      if p.ptype != PT_NOTE { continue; }
      if p.filesz == 0 || p.filesz > SEGMENT_CAP { continue; }
      if p.offset >= TWO_63 { continue; }
      if p.offset + p.filesz > |file| { continue; }
      found, content := WalkNotes(file[p.offset..p.offset + p.filesz], name);
      if found { return; }
    }
    ExtractFrom(file, segs, |segs|, name);
  }

  /** The second copy of the walk, which keeps only the size. */
  method MeasureNote(data: seq<byte>, name: seq<byte>) returns (found: bool, size: nat)
    ensures var r := Find(Walk(data), name);
      found == r.Some? && (found ==> size == |r.value|)
  {
    hide Find, Walk, Field;
    found, size := false, 0;
    var pos := 0;
    assert data[0..] == data;
    while pos + 12 <= |data|
      invariant pos <= |data|
      invariant Find(Walk(data), name) == Find(Walk(data[pos..]), name)
    {
      FindStep(data, pos, name);
      if !CappedAt(data, pos) { return; }
      var total := TotalAt(data, pos);
      if pos + total > |data| { return; }
      if NameAt(data, pos) == name {
        return true, |DescAt(data, pos)|;
      }
      pos := pos + total;
    }
    FindStep(data, pos, name);
  }

  /** The check that a section exists reports the size of the data the extraction returns. */
  method VerifySection(file: seq<byte>, segs: seq<Phdr>, name: seq<byte>) returns (found: bool, size: nat)
    ensures found <==> Extract(file, segs, name).Some?
    ensures found ==> size == |Extract(file, segs, name).value|
  {
    hide Find, Walk, Extract;
    found, size := false, 0;
    assert segs[0..] == segs;
    for i := 0 to |segs|
      invariant !found && Extract(file, segs, name) == Extract(file, segs[i..], name)
    {
      ExtractFrom(file, segs, i, name);
      var p := segs[i];
      if p.ptype != PT_NOTE { continue; }
      if p.filesz == 0 || p.filesz > SEGMENT_CAP { continue; }
      if p.offset >= TWO_63 { continue; }
      if p.offset + p.filesz > |file| { continue; }
      found, size := MeasureNote(file[p.offset..p.offset + p.filesz], name);
      if found { return; }
    }
    ExtractFrom(file, segs, |segs|, name);
  }

  // ---- Reading what the writer wrote --------------------------------------

  /**
    Walking over the rewritten segment yields exactly the updated note list, byte
    for byte, when and only when every note of it is within the reader's limits.
   */
  lemma WalkAfterWrite(img: seq<byte>, notes: seq<Note>)
    requires Writable(img) && TableBehindHeader(img) && FitsFile(img, notes)
    requires notes != [] && AllEncodable(notes)
    ensures Writable(Output(img, notes)) && AllChunks(Update(OldNotes(img), notes))
    ensures Walk(OldRegion(Output(img, notes))) == Update(OldNotes(img), notes)
       <==> AllCapped(Update(OldNotes(img), notes))
  {
    hide Output, OldRegion, Chunk, Writable, AllNotes, FitsFile;
    OutputNotes(img, notes);
    var out := Output(img, notes);
    assert OldNotes(out) == Scan(OldRegion(out));
    WalkIsCappedScan(OldRegion(out));
    CappedPrefixComplete(Update(OldNotes(img), notes));
  }

  lemma {:induction false} ExtractAppend(file: seq<byte>, a: seq<Phdr>, b: seq<Phdr>, name: seq<byte>)
    ensures Extract(file, a + b, name)
         == if Extract(file, a, name).Some? then Extract(file, a, name) else Extract(file, b, name)
  {
    if a == [] {
      assert a + b == b;
    } else {
      assert (a + b)[1..] == a[1..] + b;
      ExtractAppend(file, a[1..], b, name);
    }
  }

  lemma {:induction false} NoNotesNoExtract(file: seq<byte>, segs: seq<Phdr>, name: seq<byte>)
    requires forall i :: 0 <= i < |segs| ==> segs[i].ptype != PT_NOTE
    ensures Extract(file, segs, name) == None
  {
    if segs != [] { NoNotesNoExtract(file, segs[1..], name); }
  }

  /** The entries the reader meets before the reused one. */
  function Earlier(out: seq<byte>): seq<Phdr>
    requires Writable(out)
  {
    Headers(out)[..TargetIndex(out)]
  }

  lemma ExtractSplit(out: seq<byte>, name: seq<byte>)
    requires Writable(out)
    ensures var e := Extract(out, Earlier(out), name);
      Extract(out, Headers(out), name) == if e.Some? then e else FindInSegment(out, Target(out), name)
  {
    hide Field, Phdrs;
    var hs, k := Headers(out), TargetIndex(out);
    var later := hs[k + 1..];
    assert hs == hs[..k] + ([hs[k]] + later);
    ExtractAppend(out, hs[..k], [hs[k]] + later, name);
    assert ([hs[k]] + later)[1..] == later;
    NoNotesNoExtract(out, later, name);
  }

  /** What a segment shows, when it can be read. */
  lemma FindInSegmentSeen(file: seq<byte>, p: Phdr, name: seq<byte>)
    requires Readable(file, p)
    ensures FindInSegment(file, p, name) == Seen(Scan(file[p.offset..p.offset + p.filesz]), name)
  {
    hide Find, Walk, Scan, Seen, CappedPrefix;
    var region := file[p.offset..p.offset + p.filesz];
    WalkIsCappedScan(region);
    SeenIsFind(Scan(region), name);
  }

  /** What extraction finds in the reused segment before the write, and after it. */
  function SeenBefore(img: seq<byte>, name: seq<byte>): Option<seq<byte>>
    requires Writable(img)
  {
    if |OldRegion(img)| <= SEGMENT_CAP then Seen(OldNotes(img), name) else None
  }

  function SeenAfter(img: seq<byte>, notes: seq<Note>, name: seq<byte>): Option<seq<byte>>
    requires Writable(img) && AllChunks(Update(OldNotes(img), notes))
  {
    if |AllNotes(img, notes)| <= SEGMENT_CAP then Seen(Update(OldNotes(img), notes), name) else None
  }

  lemma TargetBefore(img: seq<byte>, name: seq<byte>)
    requires Writable(img) && |img| < TWO_63
    ensures FindInSegment(img, Target(img), name) == SeenBefore(img, name)
  {
    hide Find, Walk, Scan, Seen, Field, Headers, TableOf, LastNote;
    var p := Target(img);
    if Readable(img, p) {
      FindInSegmentSeen(img, p, name);
    } else if OldRegion(img) == [] {
      NothingSeen(name);
    }
  }

  lemma NothingSeen(name: seq<byte>)
    ensures Scan([]) == [] && Seen([], name) == None
  {
  }

  lemma TargetAfter(img: seq<byte>, notes: seq<Note>, name: seq<byte>)
    requires Writable(img) && TableBehindHeader(img) && FitsFile(img, notes) && notes != [] && AllEncodable(notes)
    ensures Writable(Output(img, notes)) && AllChunks(Update(OldNotes(img), notes))
    ensures FindInSegment(Output(img, notes), Target(Output(img, notes)), name) == SeenAfter(img, notes, name)
  {
    hide Find, Walk, Scan, Seen, Field, Headers, TableOf, LastNote, Output, AllNotes, FindInSegment, OldRegion, Target;
    OutputNotes(img, notes);
    OutputSplit(img, notes);
    TargetBefore(Output(img, notes), name);
  }

  /** Segments that show the same show the same section. */
  lemma {:induction false} ExtractSame(f: seq<byte>, a: seq<Phdr>, g: seq<byte>, b: seq<Phdr>, name: seq<byte>)
    requires |a| == |b| && forall i :: 0 <= i < |a| ==> FindInSegment(f, a[i], name) == FindInSegment(g, b[i], name)
    ensures Extract(f, a, name) == Extract(g, b, name)
  {
    if a != [] {
      assert a[0] == a[0] && FindInSegment(f, a[0], name) == FindInSegment(g, b[0], name);
      assert forall i :: 0 <= i < |a[1..]| ==> a[1..][i] == a[i + 1] && b[1..][i] == b[i + 1];
      ExtractSame(f, a[1..], g, b[1..], name);
    }
  }

  /** The segments in front of the reused one show after the write what they showed before. */
  lemma EarlierSame(img: seq<byte>, notes: seq<Note>, name: seq<byte>)
    requires Writable(img) && TableBehindHeader(img) && FitsFile(img, notes) && Settled(img)
    ensures Writable(Output(img, notes))
    ensures Extract(Output(img, notes), Earlier(Output(img, notes)), name) == Extract(img, Earlier(img), name)
  {
    hide Find, Walk, Field, Headers, TableOf, LastNote, Output, Entry, AllNotes, Settled, FitsFile, Extract;
    OutputWritable(img, notes);
    var out := Output(img, notes);
    forall i | 0 <= i < TargetIndex(img)
      ensures FindInSegment(out, Earlier(out)[i], name) == FindInSegment(img, Earlier(img)[i], name)
    {
      EarlierKept(img, notes, i);
    }
    ExtractSame(out, Earlier(out), img, Earlier(img), name);
  }

  /** The written note is within the reader's limits, and so is everything in front of it in the segment. */
  ghost predicate Reached(img: seq<byte>, notes: seq<Note>, k: nat)
    requires Writable(img) && k < |notes|
  {
    && |AllNotes(img, notes)| <= SEGMENT_CAP
    && AllCapped(Keep(OldNotes(img), Names(notes)))
    && WithinCapsTo(notes, k)
  }

  lemma SeenWritten(img: seq<byte>, notes: seq<Note>, k: nat)
    requires Writable(img) && AllEncodable(notes) && DistinctNames(notes) && k < |notes|
    ensures AllChunks(Update(OldNotes(img), notes))
    ensures SeenAfter(img, notes, notes[k].name) == if Reached(img, notes, k) then Some(notes[k].desc) else None
  {
    hide Seen, OldNotes, Chunk, Writable, AllNotes;
    ChunksAreChunks(notes);
    assert notes[k] in notes;
    SeenKept(OldNotes(img), Names(notes), notes[k].name);
    SeenNew(notes, k);
    SeenAppend(Keep(OldNotes(img), Names(notes)), Chunks(notes), notes[k].name);
  }

  /**
    Extracting a written note: an earlier PT_NOTE of the image that shows a note of the
    name wins, for the writer replaces names in the last PT_NOTE only. Otherwise the
    written data comes out exactly when the reader's limits let it get there.
   */
  lemma ExtractAfterWrite(img: seq<byte>, notes: seq<Note>, k: nat)
    requires Writable(img) && TableBehindHeader(img) && FitsFile(img, notes) && Settled(img)
    requires AllEncodable(notes) && DistinctNames(notes) && k < |notes|
    ensures Writable(Output(img, notes))
    ensures var out, name := Output(img, notes), notes[k].name;
      var e := Extract(img, Earlier(img), name);
      && Extract(out, Headers(out), name) == (if e.Some? then e else if Reached(img, notes, k) then Some(notes[k].desc) else None)
      && (Extract(out, Headers(out), name) == Some(notes[k].desc)
          <==> if e.Some? then e.value == notes[k].desc else Reached(img, notes, k))
  {
    hide *;
    EarlierSame(img, notes, notes[k].name);
    TargetAfter(img, notes, notes[k].name);
    SeenWritten(img, notes, k);
    ExtractSplit(Output(img, notes), notes[k].name);
  }

  /** The write does not change what the reused segment shows of a name it does not write. */
  ghost predicate ShownAsBefore(img: seq<byte>, notes: seq<Note>, name: seq<byte>)
    requires Writable(img)
  {
    var kept := Keep(OldNotes(img), Names(notes));
    if |OldRegion(img)| <= SEGMENT_CAP then
      if |AllNotes(img, notes)| <= SEGMENT_CAP then !Uncovers(OldNotes(img), Names(notes), name) else Seen(OldNotes(img), name).None?
    else |AllNotes(img, notes)| <= SEGMENT_CAP ==> Seen(kept, name).None?
  }

  lemma SeenOther(img: seq<byte>, notes: seq<Note>, name: seq<byte>)
    requires Writable(img) && AllEncodable(notes) && name !in Names(notes)
    ensures AllChunks(Update(OldNotes(img), notes))
    ensures SeenAfter(img, notes, name) == SeenBefore(img, name) <==> ShownAsBefore(img, notes, name)
  {
    hide Seen, OldNotes, Chunk, Writable, AllNotes, OldRegion, Uncovers;
    ChunksAreChunks(notes);
    FindAbsentNew(notes, name);
    SeenAbsent(Chunks(notes), name);
    SeenAppend(Keep(OldNotes(img), Names(notes)), Chunks(notes), name);
    UncoversExactly(OldNotes(img), Names(notes), name);
  }

  /**
    A note that is not written reads as before exactly when an earlier PT_NOTE shows it
    anyway or the write changes nothing about the limits in front of it.
   */
  lemma ExtractOther(img: seq<byte>, notes: seq<Note>, name: seq<byte>)
    requires Writable(img) && TableBehindHeader(img) && FitsFile(img, notes) && Settled(img) && notes != []
    requires AllEncodable(notes) && name !in Names(notes)
    ensures Writable(Output(img, notes))
    ensures var out := Output(img, notes);
      Extract(out, Headers(out), name) == Extract(img, Headers(img), name)
      <==> Extract(img, Earlier(img), name).Some? || ShownAsBefore(img, notes, name)
  {
    hide *;
    EarlierSame(img, notes, name);
    TargetAfter(img, notes, name);
    assert |img| < TWO_63 by { SmallFile(img, notes); }
    TargetBefore(img, name);
    SeenOther(img, notes, name);
    ExtractSplit(Output(img, notes), name);
    ExtractSplit(img, name);
  }

  lemma SmallFile(img: seq<byte>, notes: seq<Note>)
    requires Writable(img) && FitsFile(img, notes)
    ensures |img| < TWO_63
  {
  }
}
