/**
  From payload to payload: a section is built, written as a note into an ELF image,
  located by its marker in the PT_NOTE segments, and read back.
 */
module SmolContainer {
  import opened Alignment
  import opened Bytes
  import opened ElfImage
  import opened NoteCodec
  import opened NoteWriter
  import opened NoteWriterLaws
  import opened Options
  import opened PtnoteFinder
  import opened SmolSection

  /** The finder's view of a table entry. */
  function ToSegment(p: Phdr): Segment {
    Segment(p.ptype, p.offset, p.filesz)
  }

  function ToSegments(ps: seq<Phdr>): (r: seq<Segment>)
    ensures |r| == |ps| && forall i :: 0 <= i < |ps| ==> r[i] == ToSegment(ps[i])
  {
    seq(|ps|, i requires 0 <= i < |ps| => ToSegment(ps[i]))
  }

  lemma FieldOfSlice(s: seq<byte>, a: nat, b: nat, e: nat, k: nat)
    requires a <= b <= |s| && e + k <= b - a
    ensures Field(s[a..b], e, k) == Field(s, a + e, k)
  {
    SliceSlice(s, a, b, e, e + k);
    SameField(s[a..b], e, s, a + e, k);
  }

  /** In the buffer an entry inside the table is the writer's entry. */
  lemma EntryIsSegment(out: seq<byte>, a: nat, b: nat, rest: seq<byte>, e: nat)
    requires a <= b <= |out| && e + ENTRY_LEN <= b - a
    ensures SegmentAt(out[a..b] + rest, ELF64, e) == ToSegment(Entry(out, a + e))
  {
    hide Field;
    var table := out[a..b];
    FieldPrefix(table, rest, e, 4);
    FieldPrefix(table, rest, e + P_OFFSET, 8);
    FieldPrefix(table, rest, e + P_FILESZ, 8);
    FieldOfSlice(out, a, b, e, 4);
    FieldOfSlice(out, a, b, e + P_OFFSET, 8);
    FieldOfSlice(out, a, b, e + P_FILESZ, 8);
  }

  lemma HeaderFields(out: seq<byte>, stack: seq<byte>)
    requires |stack| == 64 && |out| >= 64
    ensures var h, t := HeaderOf(out, stack), TableOf(out);
      Field(h, 32, 8) == t.off && Field(h, 54, 2) == t.esz && Field(h, 56, 2) == t.count
      && forall i :: 0 <= i < 6 ==> h[i] == out[i]
  {
    hide Field;
    assert out[..64] == out[0..64];
    FieldOfSlice(out, 0, 64, 32, 8);
    FieldOfSlice(out, 0, 64, 54, 2);
    FieldOfSlice(out, 0, 64, 56, 2);
  }

  lemma TableSize(out: seq<byte>, t: Table)
    requires TableFits(out, t)
    ensures 0 < TableLen(t.count, t.esz) && t.off + TableLen(t.count, t.esz) == At(t, t.count) <= |out|
  {
    AtIs(t, t.count);
    assert t.count * t.esz >= t.esz by { assert (t.count - 1) * t.esz >= 0; }
  }

  lemma SegmentIsHeader(out: seq<byte>, t: Table, frame: seq<byte>, i: nat)
    requires TableFits(out, t) && i < t.count && |frame| == FRAME && TableLen(t.count, t.esz) <= PHDR_BUFFER
    ensures At(t, t.count) <= |out| && At(t, t.count) - t.off <= PHDR_BUFFER
    ensures var buf := TableBuffer(out[t.off..At(t, t.count)], frame);
      Segments(buf, ELF64, t.esz, t.count)[i] == ToSegment(Phdrs(out, t, t.count)[i])
  {
    hide Field, Entry, Phdrs, Segments, SegmentAt, At, TableLen;
    TableSize(out, t);
    var end := At(t, t.count);
    var table := out[t.off..end];
    SegmentsAt(TableBuffer(table, frame), ELF64, t.esz, t.count, i);
    EntriesApart(t, i, t.count);
    AtIs(t, i);
    EntryIsSegment(out, t.off, end, frame[|table|..], At(t, i) - t.off);
    PhdrsAt(out, t, t.count, i);
  }

  lemma SegmentsAreHeaders(out: seq<byte>, t: Table, frame: seq<byte>)
    requires TableFits(out, t) && |frame| == FRAME && TableLen(t.count, t.esz) <= PHDR_BUFFER
    ensures At(t, t.count) <= |out| && At(t, t.count) - t.off <= PHDR_BUFFER
    ensures Segments(TableBuffer(out[t.off..At(t, t.count)], frame), ELF64, t.esz, t.count) == ToSegments(Phdrs(out, t, t.count))
  {
    hide Field, Entry, Phdrs, Segments, SegmentAt, At, TableLen, TableBuffer;
    TableSize(out, t);
    forall i | 0 <= i < t.count
      ensures Segments(TableBuffer(out[t.off..At(t, t.count)], frame), ELF64, t.esz, t.count)[i] == ToSegment(Phdrs(out, t, t.count)[i])
    {
      SegmentIsHeader(out, t, frame, i);
    }
  }

  /** The finder reads the same table as the writer exactly when it fits the finder's buffer. */
  lemma TableAsSegments(out: seq<byte>, stack: seq<byte>, frame: seq<byte>)
    requires |stack| == 64 && |frame| == FRAME && IsElf64LE(out) && TableFits(out, TableOf(out)) && TableOf(out).off < TWO_63
    ensures var h, t := HeaderOf(out, stack), TableOf(out);
      && Accepted(out, h)
      && ReadTable(out, h, frame) == if TableLen(t.count, t.esz) <= PHDR_BUFFER then Some(ToSegments(Headers(out))) else None
  {
    hide Field, Phdrs, Segments, At, HeaderOf, TableOf, TableLen, TableBuffer;
    HeaderFields(out, stack);
    TableSize(out, TableOf(out));
    if TableLen(TableOf(out).count, TableOf(out).esz) <= PHDR_BUFFER {
      SegmentsAreHeaders(out, TableOf(out), frame);
    }
  }

  lemma {:induction false} FirstHitAppend(file: seq<byte>, a: seq<Segment>, b: seq<Segment>, m: seq<byte>)
    ensures FirstHit(file, a + b, m) == if FirstHit(file, a, m) != -1 then FirstHit(file, a, m) else FirstHit(file, b, m)
  {
    if a == [] {
      assert a + b == b;
    } else {
      assert (a + b)[1..] == a[1..] + b;
      FirstHitAppend(file, a[1..], b, m);
    }
  }

  lemma {:induction false} NoNoteNoHit(file: seq<byte>, segs: seq<Segment>, m: seq<byte>)
    requires forall i :: 0 <= i < |segs| ==> segs[i].ptype != NOTE
    ensures FirstHit(file, segs, m) == -1
  {
    if segs != [] { NoNoteNoHit(file, segs[1..], m); }
  }

  /** The finder's result in the PT_NOTE segments before the reused one. */
  function EarlierHit(out: seq<byte>, m: seq<byte>): int
    requires Writable(out)
  {
    FirstHit(out, ToSegments(Headers(out)[..TargetIndex(out)]), m)
  }

  lemma FirstHitSplit(out: seq<byte>, m: seq<byte>)
    requires Writable(out)
    ensures FirstHit(out, ToSegments(Headers(out)), m)
         == if EarlierHit(out, m) != -1 then EarlierHit(out, m) else Hit(out, ToSegment(Target(out)), m)
  {
    hide Field, Phdrs, Hit;
    var hs, k := Headers(out), TargetIndex(out);
    var segs, later := ToSegments(hs), ToSegments(hs[k + 1..]);
    assert segs == ToSegments(hs[..k]) + ([ToSegment(hs[k])] + later);
    FirstHitAppend(out, ToSegments(hs[..k]), [ToSegment(hs[k])] + later, m);
    assert ([ToSegment(hs[k])] + later)[1..] == later;
    NoNoteNoHit(out, later, m);
  }

  /** Segments that hit alike hit alike together. */
  lemma {:induction false} FirstHitSame(f: seq<byte>, a: seq<Segment>, g: seq<byte>, b: seq<Segment>, m: seq<byte>)
    requires |a| == |b| && forall i :: 0 <= i < |a| ==> Hit(f, a[i], m) == Hit(g, b[i], m)
    ensures FirstHit(f, a, m) == FirstHit(g, b, m)
  {
    hide Hit;
    if a != [] {
      assert Hit(f, a[0], m) == Hit(g, b[0], m);
      assert forall i :: 0 <= i < |a[1..]| ==> a[1..][i] == a[i + 1] && b[1..][i] == b[i + 1];
      FirstHitSame(f, a[1..], g, b[1..], m);
    }
  }

  lemma HitSame(f: seq<byte>, p: Phdr, g: seq<byte>, q: Phdr, m: seq<byte>)
    requires p.ptype == q.ptype
    requires q.ptype == PT_NOTE ==>
      p == q && q.offset + q.filesz <= |g| <= |f| && f[q.offset..q.offset + q.filesz] == g[q.offset..q.offset + q.filesz]
    ensures Hit(f, ToSegment(p), m) == Hit(g, ToSegment(q), m)
  {
    hide FirstFrom;
  }

  /** The segments in front of the reused one hit after the write where they hit before. */
  lemma EarlierHitSame(img: seq<byte>, notes: seq<Note>, m: seq<byte>)
    requires Writable(img) && TableBehindHeader(img) && FitsFile(img, notes) && Settled(img)
    ensures Writable(Output(img, notes)) && EarlierHit(Output(img, notes), m) == EarlierHit(img, m)
  {
    hide Field, Headers, TableOf, LastNote, Output, Entry, AllNotes, Settled, FitsFile, FirstHit, FirstFrom;
    OutputWritable(img, notes);
    var out, k := Output(img, notes), TargetIndex(img);
    var a, b := ToSegments(Headers(out)[..k]), ToSegments(Headers(img)[..k]);
    forall i | 0 <= i < k
      ensures Hit(out, a[i], m) == Hit(img, b[i], m)
    {
      hide Hit, Writable;
      EarlierKept(img, notes, i);
      HitSame(out, Headers(out)[i], img, Headers(img)[i], m);
    }
    FirstHitSame(out, a, img, b, m);
  }

  lemma {:induction false} FirstHitInside(file: seq<byte>, segs: seq<Segment>, m: seq<byte>)
    requires m != []
    ensures -1 <= FirstHit(file, segs, m) < |file|
  {
    if segs != [] {
      FirstHitInside(file, segs[1..], m);
    }
  }

  /** The largest PT_NOTE decides whether the finder looks at all. */
  lemma {:induction false} MaxNoteBounds(segs: seq<Segment>, k: nat, limit: nat)
    requires k < |segs| && segs[k].ptype == NOTE
    ensures segs[k].filesz <= MaxNote(segs)
    ensures MaxNote(segs) <= limit <==> forall p :: p in segs && p.ptype == NOTE ==> p.filesz <= limit
  {
    MaxNoteLimit(segs, limit);
    MaxNoteLimit(segs, MaxNote(segs));
    assert segs[k] in segs;
  }

  lemma {:induction false} MaxNoteLimit(segs: seq<Segment>, limit: nat)
    ensures MaxNote(segs) <= limit <==> forall p :: p in segs && p.ptype == NOTE ==> p.filesz <= limit
  {
    if segs != [] {
      MaxNoteLimit(segs[..|segs| - 1], limit);
      assert segs == segs[..|segs| - 1] + [segs[|segs| - 1]];
    }
  }

  // ---- The written note ---------------------------------------------------

  /** The bytes in front of the note's data in the rewritten segment: the kept notes, the header and the name. */
  function Preamble(img: seq<byte>, n: Note): seq<byte>
    requires Writable(img)
  {
    Flatten(Keep(OldNotes(img), {n.name})) + (Header(n) + (n.name + [0]) + Zeros(Align4(|n.name| + 1) - (|n.name| + 1)))
  }

  /** The rewritten segment is the preamble, the data, and padding. */
  lemma AllNotesOfOne(img: seq<byte>, n: Note)
    requires Writable(img)
    ensures AllNotes(img, [n]) == Preamble(img, n) + n.desc + Zeros(Align4(|n.desc|) - |n.desc|)
  {
    hide OldNotes, Header, Writable;
    var kept := Flatten(Keep(OldNotes(img), {n.name}));
    var head := Header(n) + (n.name + [0]) + Zeros(Align4(|n.name| + 1) - (|n.name| + 1));
    var pad := Zeros(Align4(|n.desc|) - |n.desc|);
    assert Names([n]) == {n.name};
    assert Chunks([n]) == [Chunk(n)];
    FlattenAppend(Keep(OldNotes(img), {n.name}), [Chunk(n)]);
    assert Flatten([Chunk(n)]) == Chunk(n);
    assert Chunk(n) == head + n.desc + pad;
    Assoc(kept, head + n.desc, pad);
    Assoc(kept, head, n.desc);
  }

  lemma MarkerUnbordered()
    ensures Unbordered(Marker())
  {
    var m := Marker();
    MarkerLetters();
    forall k | 0 < k < |m|
      ensures m[..k] != m[|m| - k..]
    {
      hide Marker;
      // A border ends with an R and starts with an underscore.
      assert m[..k][k - 1] == m[k - 1] && m[|m| - k..][k - 1] == m[|m| - 1];
      assert m[..k][0] == m[0] && m[|m| - k..][0] == m[|m| - k];
    }
  }

  lemma MarkerLetters()
    ensures var m := Marker();
      && m[0] == '_' as int && m[31] == 'R' as int && m[23] != '_' as int && m[3] != '_' as int
      && forall i :: 0 <= i < 31 && m[i] == 'R' as int ==> i == 8 || i == 28
  {
    var m := Marker();
    forall i | 0 <= i < 31
      ensures m[i] == 'R' as int ==> i == 8 || i == 28
    {
      if i < 6 {
        assert m[i] == Ascii("__SMOL")[i];
      } else if i < 19 {
        assert m[i] == Ascii("_PRESSED_DATA")[i - 6];
      } else {
        assert m[i] == Ascii("_MAGIC_MARKER")[i - 19];
      }
    }
  }

  /** The header table and every PT_NOTE of the image fit the finder's limits, the written notes in place of the reused one's. */
  ghost predicate WithinLimits(img: seq<byte>, n: Note)
    requires Writable(img)
  {
    && TableLen(TableOf(img).count, TableOf(img).esz) <= PHDR_BUFFER
    && |AllNotes(img, [n])| <= NOTE_LIMIT
    && forall i :: 0 <= i < |Headers(img)| && i != TargetIndex(img) && Headers(img)[i].ptype == PT_NOTE ==>
         Headers(img)[i].filesz <= NOTE_LIMIT
  }

  lemma LimitsOfOutput(img: seq<byte>, n: Note)
    requires Writable(img) && TableBehindHeader(img) && FitsFile(img, [n])
    ensures Writable(Output(img, [n]))
    ensures (forall p :: p in ToSegments(Headers(Output(img, [n]))) && p.ptype == NOTE ==> p.filesz <= NOTE_LIMIT)
       <==> |AllNotes(img, [n])| <= NOTE_LIMIT
            && forall i :: 0 <= i < |Headers(img)| && i != TargetIndex(img) && Headers(img)[i].ptype == PT_NOTE ==>
                 Headers(img)[i].filesz <= NOTE_LIMIT
  {
    hide Field, Headers, TableOf, LastNote, LastLoad, Output, Entry, AllNotes, FitsFile, NoteVaddr, Gap, W64, IsDynamic;
    OutputWritable(img, [n]);
    var hs := Headers(Output(img, [n]));
    var segs := ToSegments(hs);
    forall i | 0 <= i < |Headers(img)|
      ensures |hs| == |Headers(img)| && hs[i] == NewEntry(img, [n], i) && segs[i] in segs
    {
      OutputHeaders(img, [n], i);
    }
    assert segs[TargetIndex(img)].filesz == |AllNotes(img, [n])|;
    forall i | 0 <= i < |Headers(img)| && i != TargetIndex(img) && Headers(img)[i].ptype == PT_NOTE
      ensures segs[i] == ToSegment(Headers(img)[i])
    {
      assert hs[i] == NewEntry(img, [n], i);
    }
    forall p | p in segs && p.ptype == NOTE
      ensures p.filesz == |AllNotes(img, [n])|
           || exists i :: 0 <= i < |Headers(img)| && i != TargetIndex(img) && Headers(img)[i].ptype == PT_NOTE && Headers(img)[i].filesz == p.filesz
    {
      var i :| 0 <= i < |segs| && segs[i] == p;
      assert hs[i] == NewEntry(img, [n], i);
    }
  }

  /** Where the finder ends up in a written image, in terms of the image. */
  function Found(img: seq<byte>, n: Note): int
    requires Writable(img)
  {
    if EarlierHit(img, Marker()) != -1 then EarlierHit(img, Marker()) else |img| + FirstFrom(AllNotes(img, [n]), Marker(), 0)
  }

  lemma SearchIsFound(img: seq<byte>, n: Note, stack: seq<byte>, frame: seq<byte>)
    requires Writable(img) && TableBehindHeader(img) && FitsFile(img, [n]) && Settled(img) && Encodable(n)
    requires |stack| == 64 && |frame| == FRAME && MARKER_LEN <= |n.desc| && n.desc[..MARKER_LEN] == Marker()
    ensures Writable(Output(img, [n]))
    ensures Search(Output(img, [n]), HeaderOf(Output(img, [n]), stack), frame, Marker())
         == if WithinLimits(img, n) then Found(img, n) else -1
  {
    hide Field, Output, Preamble, AllNotes, Hit, FirstHit, MaxNote, NoteVaddr, Marker, EarlierHit, Headers, Chunk, FirstFrom,
         TableLen, TableOf, Settled, ReadTable, Accepted, HeaderOf, FitsFile;
    var out, k := Output(img, [n]), TargetIndex(img);
    OutputWritable(img, [n]);
    OutputHeader(img, [n]);
    assert TableOf(out).off < TWO_63 by { TableInFile(img, n); }
    TableAsSegments(out, stack, frame);
    var segs := ToSegments(Headers(out));
    LimitsOfOutput(img, n);
    MaxNoteBounds(segs, k, NOTE_LIMIT);
    WrittenSize(img, n);
    FirstHitSplit(out, Marker());
    EarlierHitSame(img, [n], Marker());
    HitInTarget(img, n);
  }

  lemma TableInFile(img: seq<byte>, n: Note)
    requires Writable(img) && TableBehindHeader(img) && FitsFile(img, [n])
    ensures TableOf(Output(img, [n])).off < TWO_63
  {
    hide Field, Output, AllNotes;
    OutputHeader(img, [n]);
  }

  lemma WrittenSize(img: seq<byte>, n: Note)
    requires Writable(img) && TableBehindHeader(img) && FitsFile(img, [n]) && |n.desc| >= MARKER_LEN
    ensures Writable(Output(img, [n])) && MARKER_LEN <= |AllNotes(img, [n])| == Target(Output(img, [n])).filesz
  {
    hide Field, Output, Preamble, Headers, NoteVaddr, AllNotes, FitsFile, TableOf;
    OutputWritable(img, [n]);
    AllNotesOfOne(img, n);
  }

  /**
    The finder returns the start of the written data exactly when its limits let it
    look, no earlier PT_NOTE of the image hits, and the bytes in front of the data in the
    segment do not contain the marker. None straddles the boundary.
   */
  lemma FindWritten(img: seq<byte>, n: Note, stack: seq<byte>, frame: seq<byte>)
    requires Writable(img) && TableBehindHeader(img) && FitsFile(img, [n]) && Settled(img) && Encodable(n)
    requires |stack| == 64 && |frame| == FRAME && MARKER_LEN <= |n.desc| && n.desc[..MARKER_LEN] == Marker()
    ensures var out := Output(img, [n]);
      Search(out, HeaderOf(out, stack), frame, Marker()) == |img| + |Preamble(img, n)|
      <==> WithinLimits(img, n) && EarlierHit(img, Marker()) == -1 && !Contains(Preamble(img, n), Marker())
  {
    hide Field, Output, Preamble, AllNotes, Marker, Headers, Chunk, FirstFrom, FirstHit, TableOf, Search, WithinLimits, Settled, HeaderOf;
    SearchIsFound(img, n, stack, frame);
    MarkerUnbordered();
    var pad := Zeros(Align4(|n.desc|) - |n.desc|);
    AllNotesOfOne(img, n);
    RegionShape(Preamble(img, n), n.desc, pad);
    FirstBehindPrefix(Preamble(img, n), Marker(), n.desc[MARKER_LEN..] + pad);
    FirstHitInside(img, ToSegments(Headers(img)[..TargetIndex(img)]), Marker());
  }

  lemma RegionShape(p: seq<byte>, desc: seq<byte>, pad: seq<byte>)
    requires MARKER_LEN <= |desc| && desc[..MARKER_LEN] == Marker()
    ensures p + desc + pad == p + Marker() + (desc[MARKER_LEN..] + pad)
  {
    hide Marker;
    assert desc == Marker() + desc[MARKER_LEN..];
    Assoc(p, Marker(), desc[MARKER_LEN..]);
    Assoc(p + Marker(), desc[MARKER_LEN..], pad);
  }

  lemma HitInTarget(img: seq<byte>, n: Note)
    requires Writable(img) && TableBehindHeader(img) && FitsFile(img, [n]) && Encodable(n)
    requires MARKER_LEN <= |n.desc| && n.desc[..MARKER_LEN] == Marker()
    ensures var out := Output(img, [n]);
      && Writable(out)
      && Hit(out, ToSegment(Target(out)), Marker()) == |img| + FirstFrom(AllNotes(img, [n]), Marker(), 0)
  {
    hide Field, AllNotes, NoteVaddr, Marker, Headers, Preamble, FirstFrom, Patched, MatchAt;
    var out := Output(img, [n]);
    OutputWritable(img, [n]);
    OutputFrame(img, [n], 0);
    AllNotesOfOne(img, n);
    var all := AllNotes(img, [n]);
    assert out[|img|..|img| + |all|] == all;
    RegionShape(Preamble(img, n), n.desc, Zeros(Align4(|n.desc|) - |n.desc|));
    AtPrefix(Preamble(img, n), Marker(), n.desc[MARKER_LEN..] + Zeros(Align4(|n.desc|) - |n.desc|));
  }

  lemma AtPrefix(p: seq<byte>, m: seq<byte>, rest: seq<byte>)
    ensures FirstFrom(p + m + rest, m, 0) >= 0
  {
    var s := p + m + rest;
    assert s[|p|..|p| + |m|] == m;
    assert MatchAt(s, m, |p|);
  }

  /** The conditions of the round trip, on the image and the section. */
  ghost predicate Clear(img: seq<byte>, n: Note)
    requires Writable(img)
  {
    WithinLimits(img, n) && EarlierHit(img, Marker()) == -1 && !Contains(Preamble(img, n), Marker())
  }

  /**
    The end-to-end round trip. The finder's offset is that of the written section exactly
    in a clear image, and then it leads both readers to everything that was stored, and
    the payload passes the integrity check.
   */
  lemma EndToEnd(img: seq<byte>, name: seq<byte>, payload: seq<byte>, info: Info, sha: seq<byte> -> seq<byte>,
                 stack: seq<byte>, frame: seq<byte>)
    requires |sha(payload)| == HASH_LEN && SoundInfo(info) && 0 < |payload| && |stack| == 64 && |frame| == FRAME
    requires var n := Note(name, Section(payload, info, sha(payload)));
      Writable(img) && TableBehindHeader(img) && FitsFile(img, [n]) && Settled(img) && Encodable(n)
    ensures var n := Note(name, Section(payload, info, sha(payload)));
      var out := Output(img, [n]);
      var at := Search(out, HeaderOf(out, stack), frame, Marker());
      && (at == |img| + |Preamble(img, n)| <==> Clear(img, n))
      && (Clear(img, n) ==> ReadBack(out, at, payload, info, sha))
  {
    hide Field, Output, Preamble, AllNotes, Section, Marker, Search, EarlierHit, Headers, HeaderOf, FitsFile, TableOf,
         WithinLimits, Settled, ReadBack;
    var section := Section(payload, info, sha(payload));
    var n := Note(name, section);
    SectionStart(payload, info, sha(payload));
    FindWritten(img, n, stack, frame);
    WrittenAt(img, n);
    SectionReadBack(Output(img, [n]), |img| + |Preamble(img, n)|, payload, info, sha);
  }

  /** Both readers, started behind the marker at `at`, find what was stored, and the payload has the stored hash. */
  predicate ReadBack(out: seq<byte>, at: int, payload: seq<byte>, info: Info, sha: seq<byte> -> seq<byte>) {
    at >= 0 &&
    var r := ParseAt(out, at + MARKER_LEN);
    && r.Some?
    && r.value.compressed == |payload| && r.value.uncompressed == info.uncompressed
    && |sha(payload)| == HASH_LEN && r.value.key == CacheKey(sha(payload))
    && r.value.platform == [info.platform, info.arch, info.libc]
    && ParseWithConfig(out, at + MARKER_LEN) == (r, info.config)
    && r.value.dataOffset + |payload| <= |out|
    && out[r.value.dataOffset..r.value.dataOffset + |payload|] == payload
    && Intact(out[r.value.dataOffset..r.value.dataOffset + |payload|], r.value.hash, sha)
  }

  lemma SectionReadBack(out: seq<byte>, at: nat, payload: seq<byte>, info: Info, sha: seq<byte> -> seq<byte>)
    requires |sha(payload)| == HASH_LEN && SoundInfo(info) && 0 < |payload| < TWO_64
    requires at + |Section(payload, info, sha(payload))| <= |out|
    requires out[at..at + |Section(payload, info, sha(payload))|] == Section(payload, info, sha(payload))
    ensures ReadBack(out, at, payload, info, sha)
  {
    hide Section, Field, ParseAt, ParseWithConfig, CacheKey;
    SectionRoundTrip(out, at, payload, info, sha(payload));
  }

  lemma WrittenAt(img: seq<byte>, n: Note)
    requires Writable(img)
    ensures var out, at := Output(img, [n]), |img| + |Preamble(img, n)|;
      at + |n.desc| <= |out| && out[at..at + |n.desc|] == n.desc
  {
    hide Field, Output, Preamble, AllNotes, Headers, Patched;
    AllNotesOfOne(img, n);
    OutputSplit(img, [n]);
    AtEnd(Body(img, [n]), Preamble(img, n), n.desc, Zeros(Align4(|n.desc|) - |n.desc|));
  }

  lemma AtEnd(a: seq<byte>, p: seq<byte>, d: seq<byte>, z: seq<byte>)
    ensures (a + (p + d + z))[|a| + |p|..|a| + |p| + |d|] == d
  {
    assert a + (p + d + z) == (a + p) + d + z;
  }

  lemma SectionStart(payload: seq<byte>, info: Info, hash: seq<byte>)
    requires |hash| == HASH_LEN
    ensures |Section(payload, info, hash)| >= MARKER_LEN + |payload| && Section(payload, info, hash)[..MARKER_LEN] == Marker()
  {
  }
}
