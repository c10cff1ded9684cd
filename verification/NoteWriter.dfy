/**
  The raw note writer: it appends notes to the end of an ELF image and points an
  existing PT_NOTE entry at them, in place, so the header table never moves.
  `Rewrite` says what it computes; `ReuseMultiPtnote` is the algorithm, with the
  image as an array patched by `memcpy`.
 */
module NoteWriter {
  import opened Alignment
  import opened Bytes
  import opened ElfImage
  import opened NoteCodec
  import opened Options
  import opened SeaFuse

  const PF_R: nat := 4
  const UNMAPPED_BASE: nat := 0x10000000

  datatype Error =
    | NoNotes | InvalidElf | Not64Bit | NotLittleEndian
    | NoProgramHeaders | BadEntrySize | TableOutOfBounds | NoNoteEntry

  datatype Result = Ok(image: seq<byte>) | Err(error: Error)

  function PressedData(): seq<byte> {
    Ascii("pressed_data")
  }

  /** A compression operation, which never extends a PT_LOAD. */
  predicate IsSmol(notes: seq<Note>) {
    exists n :: n in notes && n.name == PressedData()
  }

  function Headers(img: seq<byte>): (r: seq<Phdr>)
    requires |img| >= 64 && TableFits(img, TableOf(img))
  {
    Phdrs(img, TableOf(img), TableOf(img).count)
  }

  /** The index of the PT_NOTE entry the writer reuses, or -1. */
  function TargetIndex(img: seq<byte>): (r: int)
    requires |img| >= 64 && TableFits(img, TableOf(img))
    ensures -1 <= r < |Headers(img)|
  {
    LastNote(Headers(img), |Headers(img)|)
  }

  /** The index of the PT_LOAD entry the writer may extend, or -1. */
  function LoadIndex(img: seq<byte>): (r: int)
    requires |img| >= 64 && TableFits(img, TableOf(img))
    ensures -1 <= r < |Headers(img)|
  {
    LastLoad(Headers(img), |Headers(img)|)
  }

  /** The image has a table the writer accepts and a PT_NOTE to reuse. */
  predicate Writable(img: seq<byte>) {
    IsElf64LE(img) && TableFits(img, TableOf(img)) && TargetIndex(img) >= 0
  }

  /** The PT_NOTE entry the writer reuses. */
  function Target(img: seq<byte>): Phdr
    requires Writable(img)
  {
    Headers(img)[TargetIndex(img)]
  }

  /**
    The reused entry's range does not wrap the address space, or the wrapped end is behind
    the file, so that the code skips the old notes; it leaves the other case undefined.
   */
  predicate Sane(img: seq<byte>)
    requires |img| >= 64 && TableFits(img, TableOf(img))
  {
    Writable(img) ==>
      var p := Target(img);
      p.offset + p.filesz < TWO_64 || W64(p.offset + p.filesz) > |img|
  }

  /** The check in front of the scan of the old notes, in 64 bits as the code makes it. */
  predicate ScanLetThrough(img: seq<byte>)
    requires Writable(img)
  {
    Target(img).filesz > 0 && W64(Target(img).offset + Target(img).filesz) <= |img|
  }

  /** The scan stays inside the image whenever the check lets it through: that is what `Sane` asks, and no more. */
  lemma SaneExactly(img: seq<byte>)
    requires Writable(img) && |img| < TWO_64
    ensures Sane(img) <==> (ScanLetThrough(img) ==> Target(img).offset + Target(img).filesz <= |img|)
  {
    hide Field, Headers, TargetIndex, TableOf;
    TargetBounds(img);
    if Target(img).offset + Target(img).filesz >= TWO_64 {
      assert W64(Target(img).offset + Target(img).filesz) == Target(img).offset + Target(img).filesz - TWO_64;
    }
  }

  lemma TargetBounds(img: seq<byte>)
    requires Writable(img)
    ensures Target(img).offset < TWO_64 && Target(img).filesz < TWO_64
  {
    hide Field, TargetIndex, TableOf;
    Widths();
    PhdrsAt(img, TableOf(img), TableOf(img).count, TargetIndex(img));
  }

  /** The bytes of the notes the reused entry describes, when they lie in the file. */
  function OldRegion(img: seq<byte>): seq<byte>
    requires Writable(img)
  {
    var p := Target(img);
    if p.filesz > 0 && p.offset + p.filesz <= |img| then img[p.offset..p.offset + p.filesz] else []
  }

  function OldNotes(img: seq<byte>): (r: seq<seq<byte>>)
    requires Writable(img)
    ensures AllChunks(r)
  {
    Scan(OldRegion(img))
  }

  /** The bytes appended to the image: the kept notes and then the new ones. */
  function AllNotes(img: seq<byte>, notes: seq<Note>): seq<byte>
    requires Writable(img)
  {
    Flatten(Update(OldNotes(img), notes))
  }

  predicate IsDynamic(img: seq<byte>, notes: seq<Note>)
    requires Writable(img)
  {
    !IsSmol(notes) && HasType(Headers(img), PT_INTERP)
  }

  /** Whether a PT_LOAD is stretched to cover the notes. */
  predicate Extends(img: seq<byte>, notes: seq<Note>)
    requires Writable(img)
  {
    IsDynamic(img, notes) && LoadIndex(img) >= 0
  }

  const NO_LOAD := Phdr(PT_LOAD, 0, 0, 0, 0)

  function ExtendedLoad(img: seq<byte>): Phdr
    requires Writable(img)
  {
    if LoadIndex(img) >= 0 then Headers(img)[LoadIndex(img)] else NO_LOAD
  }

  function Gap(img: seq<byte>): nat
    requires Writable(img)
  {
    W64(|img| - FileEnd(ExtendedLoad(img)))
  }

  function NoteVaddr(img: seq<byte>, notes: seq<Note>): (r: nat)
    requires Writable(img)
    ensures r < TWO_64
  {
    var l := ExtendedLoad(img);
    if IsDynamic(img, notes) then W64(l.vaddr + l.filesz + Gap(img))
    else W64(UNMAPPED_BASE + AlignPage(|img|))
  }

  /** The 52 bytes from `p_flags` to `p_align` of the rewritten entry. */
  function NoteFields(offset: nat, vaddr: nat, size: nat): (r: seq<byte>)
    ensures |r| == 52
  {
    ToLE(PF_R, 4) + ToLE(offset, 8) + ToLE(vaddr, 8) + ToLE(vaddr, 8)
    + ToLE(size, 8) + ToLE(size, 8) + ToLE(4, 8)
  }

  function LoadSizes(filesz: nat, memsz: nat): (r: seq<byte>)
    ensures |r| == 16
  {
    ToLE(filesz, 8) + ToLE(memsz, 8)
  }

  /** The offset in the image of the reused entry. */
  function TargetAt(img: seq<byte>): (r: nat)
    requires Writable(img)
    ensures r + ENTRY_LEN <= |img|
  {
    EntryInside(img, TableOf(img), TargetIndex(img));
    At(TableOf(img), TargetIndex(img))
  }

  /** The offset in the image of the entry to extend. */
  function LoadAt(img: seq<byte>): (r: nat)
    requires Writable(img) && LoadIndex(img) >= 0
    ensures r + ENTRY_LEN <= |img|
  {
    EntryInside(img, TableOf(img), LoadIndex(img));
    At(TableOf(img), LoadIndex(img))
  }

  /** The entry of a PT_LOAD to stretch and its new sizes. */
  datatype Stretch = NoStretch | To(at: nat, filesz: nat, memsz: nat)

  /** Everything the writer stores: where the reused entry is, its new address, and the bytes appended. */
  datatype Plan = Plan(noteAt: nat, vaddr: nat, load: Stretch, all: seq<byte>)

  function StretchOf(img: seq<byte>, notes: seq<Note>, size: nat): (r: Stretch)
    requires Writable(img)
    ensures r.To? ==> r.at + ENTRY_LEN <= |img|
  {
    var l := ExtendedLoad(img);
    if Extends(img, notes) then To(LoadAt(img), W64(l.filesz + Gap(img) + size), W64(l.memsz + Gap(img) + size))
    else NoStretch
  }

  function PlanOf(img: seq<byte>, notes: seq<Note>): (r: Plan)
    requires Writable(img)
    ensures Applies(r, img)
  {
    Plan(TargetAt(img), NoteVaddr(img, notes), StretchOf(img, notes, |AllNotes(img, notes)|), AllNotes(img, notes))
  }

  predicate Applies(p: Plan, img: seq<byte>) {
    p.noteAt + ENTRY_LEN <= |img| && (p.load.To? ==> p.load.at + ENTRY_LEN <= |img|)
  }

  function Stretched(img: seq<byte>, p: Plan): (r: seq<byte>)
    requires Applies(p, img)
    ensures |r| == |img|
  {
    if p.load.To? then Put(img, p.load.at + P_FILESZ, LoadSizes(p.load.filesz, p.load.memsz)) else img
  }

  /** The image with its headers patched. */
  function Patched(img: seq<byte>, p: Plan): (r: seq<byte>)
    requires Applies(p, img)
    ensures |r| == |img|
  {
    Put(Stretched(img, p), p.noteAt + P_FLAGS, NoteFields(|img|, p.vaddr, |p.all|))
  }

  function Output(img: seq<byte>, notes: seq<Note>): seq<byte>
    requires Writable(img)
  {
    var p := PlanOf(img, notes);
    Patched(img, p) + p.all
  }

  /** The first reason not to write, in the order the code looks for one. */
  function Refusal(img: seq<byte>, notes: seq<Note>): (r: Option<Error>)
    ensures r.None? <==> notes != [] && Writable(img)
  {
    if notes == [] then Some(NoNotes)
    else if !HasMagic(img) then Some(InvalidElf)
    else if img[4] != 2 then Some(Not64Bit)
    else if img[5] != 1 then Some(NotLittleEndian)
    else TableRefusal(img)
  }

  function TableRefusal(img: seq<byte>): (r: Option<Error>)
    requires IsElf64LE(img)
    ensures r.None? <==> Writable(img)
  {
    var t := TableOf(img);
    if t.count == 0 then Some(NoProgramHeaders)
    else if t.esz < ENTRY_LEN then Some(BadEntrySize)
    else if !TableFits(img, t) then Some(TableOutOfBounds)
    else if TargetIndex(img) < 0 then Some(NoNoteEntry)
    else None
  }

  /** What writing `notes` into the image gives: the error found first, or the new image. */
  function Rewrite(img: seq<byte>, notes: seq<Note>): Result {
    if Refusal(img, notes).Some? then Err(Refusal(img, notes).value) else Ok(Output(img, notes))
  }

  function Modified(img: seq<byte>, flip: bool): (r: seq<byte>)
    ensures |r| == |img|
  {
    if flip then Flipped(img) else img
  }

  // ---- The algorithm ------------------------------------------------------

  method BuildNotes(notes: seq<Note>) returns (combined: seq<byte>)
    ensures combined == Flatten(Chunks(notes))
  {
    hide ToLE, Put, Align4, Chunk;
    combined := [];
    for k := 0 to |notes|
      invariant combined == Flatten(Chunks(notes[..k]))
    {
      var note := notes[k];
      var nameLen := |note.name| + 1;
      var nameAligned := Align4(nameLen);
      var dataAligned := Align4(|note.desc|);
      var noteSize := 12 + nameAligned + dataAligned;
      var record := Zeros(noteSize);
      record := Put(record, 0, ToLE(nameLen, 4));
      record := Put(record, 4, ToLE(|note.desc|, 4));
      record := Put(record, 8, ToLE(0, 4));
      record := Put(record, 12, note.name + [0]);
      record := Put(record, 12 + nameAligned, note.desc);
      RecordIsChunk(note, record);
      combined := combined + record;
      FlattenAppend(Chunks(notes[..k]), [Chunk(note)]);
      assert Chunks(notes[..k + 1]) == Chunks(notes[..k]) + [Chunk(note)];
      assert Flatten([Chunk(note)]) == Chunk(note);
    }
    assert notes[..|notes|] == notes;
  }

  lemma PutOnZeros(p: seq<byte>, n: nat, b: seq<byte>)
    requires |b| <= n
    ensures Put(p + Zeros(n), |p|, b) == p + b + Zeros(n - |b|)
  {
    PutIs(p + Zeros(n), |p|, b);
  }

  lemma SplitZeros(m: nat, n: nat)
    ensures Zeros(m + n) == Zeros(m) + Zeros(n)
  {
  }

  lemma RecordIsChunk(n: Note, record: seq<byte>)
    requires
      var a := Align4(|n.name| + 1);
      record == Put(Put(Put(Put(Put(Zeros(12 + a + Align4(|n.desc|)), 0, ToLE(|n.name| + 1, 4)),
                4, ToLE(|n.desc|, 4)), 8, ToLE(0, 4)), 12, n.name + [0]), 12 + a, n.desc)
    ensures record == Chunk(n)
  {
    hide ToLE, Put;
    var a, d := Align4(|n.name| + 1), Align4(|n.desc|);
    FillHeader(ToLE(|n.name| + 1, 4), ToLE(|n.desc|, 4), ToLE(0, 4), 12 + a + d);
    FillBody(Header(n), n.name + [0], n.desc, a, d);
  }

  lemma FillHeader(x: seq<byte>, y: seq<byte>, z: seq<byte>, n: nat)
    requires |x| == |y| == |z| == 4 && n >= 12
    ensures Put(Put(Put(Zeros(n), 0, x), 4, y), 8, z) == x + y + z + Zeros(n - 12)
  {
    assert Zeros(n) == [] + Zeros(n) && [] + x == x;
    PutOnZeros([], n, x);
    PutOnZeros(x, n - 4, y);
    PutOnZeros(x + y, n - 8, z);
  }

  lemma FillBody(h: seq<byte>, name: seq<byte>, desc: seq<byte>, a: nat, d: nat)
    requires |name| <= a && |desc| <= d
    ensures Put(Put(h + Zeros(a + d), |h|, name), |h| + a, desc)
         == Layout(h, name, desc, a, d)
  {
    PutOnZeros(h, a + d, name);
    SplitZeros(a - |name|, d);
    Assoc(h + name, Zeros(a - |name|), Zeros(d));
    PutOnZeros(h + name + Zeros(a - |name|), d, desc);
  }

  /** The bytes the writer keeps of the notes from `pos` on. */
  ghost function KeptFrom(data: seq<byte>, pos: nat, names: set<seq<byte>>): seq<byte>
    decreases |data| - pos
  {
    if !FitsAt(data, pos) then []
    else if NameAt(data, pos) in names then KeptFrom(data, pos + TotalAt(data, pos), names)
    else data[pos..pos + TotalAt(data, pos)] + KeptFrom(data, pos + TotalAt(data, pos), names)
  }

  lemma KeptStep(data: seq<byte>, pos: nat, names: set<seq<byte>>)
    requires FitsAt(data, pos)
    ensures var next := pos + TotalAt(data, pos);
      KeptFrom(data, pos, names) ==
      if NameAt(data, pos) in names then KeptFrom(data, next, names) else data[pos..next] + KeptFrom(data, next, names)
  {
  }

  lemma KeptEnd(data: seq<byte>, pos: nat, names: set<seq<byte>>)
    requires !FitsAt(data, pos)
    ensures KeptFrom(data, pos, names) == []
  {
  }

  lemma {:induction false} KeptIsKeepOfScan(data: seq<byte>, pos: nat, names: set<seq<byte>>)
    requires pos <= |data|
    ensures KeptFrom(data, pos, names) == Flatten(Keep(Scan(data[pos..]), names))
    decreases |data| - pos
  {
    hide Field, Scan, TotalAt, KeptFrom, Keep, Flatten, NameAt, NameOf, DescAt, DescOf;
    ScanFrom(data, pos);
    if FitsAt(data, pos) {
      var total := TotalAt(data, pos);
      KeptStep(data, pos, names);
      NoteAtParts(data, pos);
      KeptIsKeepOfScan(data, pos + total, names);
      KeepCons(data[pos..pos + total], Scan(data[pos + total..]), names);
    } else {
      KeptEnd(data, pos, names);
      NoneKept(names);
    }
  }

  lemma NoneKept(names: set<seq<byte>>)
    ensures Flatten(Keep([], names)) == []
  {
  }

  lemma KeepCons(c: seq<byte>, cs: seq<seq<byte>>, names: set<seq<byte>>)
    requires IsChunk(c) && AllChunks(cs)
    ensures AllChunks([c] + cs)
    ensures Flatten(Keep([c] + cs, names)) ==
            if NameOf(c) in names then Flatten(Keep(cs, names)) else c + Flatten(Keep(cs, names))
  {
    assert ([c] + cs)[1..] == cs;
    if NameOf(c) !in names {
      var kept := [c] + Keep(cs, names);
      assert Keep([c] + cs, names) == kept && kept[0] == c && kept[1..] == Keep(cs, names);
    }
  }

  lemma NothingKept(names: set<seq<byte>>)
    ensures Flatten(Keep(Scan([]), names)) == []
  {
  }

  method PreserveNotes(data: seq<byte>, newNames: set<seq<byte>>) returns (preserved: seq<byte>)
    ensures preserved == Flatten(Keep(Scan(data), newNames))
  {
    hide Field, TotalAt, NameAt, KeptFrom, Scan, Keep, Flatten;
    preserved := [];
    var pos := 0;
    while pos + 12 <= |data|
      invariant KeptFrom(data, 0, newNames) == preserved + KeptFrom(data, pos, newNames)
    {
      var noteTotal := TotalAt(data, pos);
      if pos + noteTotal > |data| {
        break;
      }
      KeptStep(data, pos, newNames);
      var existingName := NameAt(data, pos);
      ghost var rest := KeptFrom(data, pos + noteTotal, newNames);
      if existingName !in newNames {
        Assoc(preserved, data[pos..pos + noteTotal], rest);
        preserved := preserved + data[pos..pos + noteTotal];
      }
      pos := pos + noteTotal;
    }
    KeptEnd(data, pos, newNames);
    KeptIsKeepOfScan(data, 0, newNames);
    assert data[0..] == data;
  }

  /** The offset of entry `i`, as the code computes it. */
  method EntryOffset(t: Table, i: nat) returns (e: nat)
    ensures e == At(t, i)
  {
    AtIs(t, i);
    e := t.off + i * t.esz;
  }

  method FindLastLoad(img: seq<byte>, t: Table) returns (idx: int, load: Phdr)
    requires TableFits(img, t)
    ensures var hs := Phdrs(img, t, t.count);
      idx == LastLoad(hs, t.count) && load == if idx >= 0 then hs[idx] else NO_LOAD
  {
    hide W64;
    idx, load := -1, NO_LOAD;
    ghost var hs := Phdrs(img, t, t.count);
    for i := 0 to t.count
      invariant idx == LastLoad(hs, i) && load == if idx >= 0 then hs[idx] else NO_LOAD
    {
      PhdrsAt(img, t, t.count, i);
      var e := EntryOffset(t, i);
      var p := Entry(img, e);
      if p.ptype == PT_LOAD && FileEnd(p) >= FileEnd(load) {
        idx, load := i, p;
      }
    }
  }

  method FindLastNote(img: seq<byte>, t: Table) returns (idx: int)
    requires TableFits(img, t)
    ensures idx == LastNote(Phdrs(img, t, t.count), t.count)
  {
    idx := -1;
    ghost var hs := Phdrs(img, t, t.count);
    for i := 0 to t.count
      invariant idx == LastNote(hs, i)
    {
      PhdrsAt(img, t, t.count, i);
      var e := EntryOffset(t, i);
      if Field(img, e, 4) == PT_NOTE {
        idx := i;
      }
    }
  }

  method FindInterp(img: seq<byte>, t: Table) returns (found: bool)
    requires TableFits(img, t)
    ensures found <==> HasType(Phdrs(img, t, t.count), PT_INTERP)
  {
    ghost var hs := Phdrs(img, t, t.count);
    for i := 0 to t.count
      invariant forall j :: 0 <= j < i ==> hs[j].ptype != PT_INTERP
    {
      PhdrsAt(img, t, t.count, i);
      var e := EntryOffset(t, i);
      if Field(img, e, 4) == PT_INTERP {
        return true;
      }
    }
    found := false;
  }

  /** The seven stores that rewrite an entry fill `p_flags` to `p_align` without a hole. */
  lemma PatchEntry(s: seq<byte>, e: nat, offset: nat, vaddr: nat, size: nat)
    requires e + ENTRY_LEN <= |s|
    ensures
      var s1 := Put(Put(Put(s, e + 4, ToLE(PF_R, 4)), e + 8, ToLE(offset, 8)), e + 16, ToLE(vaddr, 8));
      var s2 := Put(Put(s1, e + 24, ToLE(vaddr, 8)), e + 32, ToLE(size, 8));
      Put(Put(s2, e + 40, ToLE(size, 8)), e + 48, ToLE(4, 8)) == Put(s, e + P_FLAGS, NoteFields(offset, vaddr, size))
  {
    var f1 := ToLE(PF_R, 4);
    var f2 := f1 + ToLE(offset, 8);
    var f3 := f2 + ToLE(vaddr, 8);
    var f4 := f3 + ToLE(vaddr, 8);
    var f5 := f4 + ToLE(size, 8);
    PutAdjacent(s, e + 4, f1, ToLE(offset, 8));
    PutAdjacent(s, e + 4, f2, ToLE(vaddr, 8));
    PutAdjacent(s, e + 4, f3, ToLE(vaddr, 8));
    PutAdjacent(s, e + 4, f4, ToLE(size, 8));
    PutAdjacent(s, e + 4, f5, ToLE(size, 8));
    PutAdjacent(s, e + 4, f5 + ToLE(size, 8), ToLE(4, 8));
  }

  method PatchLoad(data: array<byte>, e: nat, filesz: nat, memsz: nat)
    requires e + ENTRY_LEN <= data.Length
    modifies data
    ensures data[..] == Put(old(data[..]), e + P_FILESZ, LoadSizes(filesz, memsz))
  {
    PutAdjacent(data[..], e + P_FILESZ, ToLE(filesz, 8), ToLE(memsz, 8));
    Store(data, e + P_FILESZ, ToLE(filesz, 8));
    Store(data, e + P_MEMSZ, ToLE(memsz, 8));
  }

  method PatchNote(data: array<byte>, e: nat, offset: nat, vaddr: nat, size: nat)
    requires e + ENTRY_LEN <= data.Length
    modifies data
    ensures data[..] == Put(old(data[..]), e + P_FLAGS, NoteFields(offset, vaddr, size))
  {
    PatchEntry(data[..], e, offset, vaddr, size);
    Store(data, e + 4, ToLE(PF_R, 4));
    Store(data, e + 8, ToLE(offset, 8));
    Store(data, e + 16, ToLE(vaddr, 8));
    Store(data, e + 24, ToLE(vaddr, 8));
    Store(data, e + 32, ToLE(size, 8));
    Store(data, e + 40, ToLE(size, 8));
    Store(data, e + 48, ToLE(4, 8));
  }

  /** The bytes to append: the old notes that are not replaced, then the new ones. */
  method CombineNotes(data: seq<byte>, target: Phdr, notes: seq<Note>) returns (all: seq<byte>)
    requires Writable(data) && target == Target(data) && Sane(data)
    ensures all == AllNotes(data, notes)
  {
    hide Field, W64, Headers, TargetIndex, Scan, Keep, Flatten, Chunks;
    var combined := BuildNotes(notes);
    var newNames := set n | n in notes :: n.name;
    var preserved := [];
    if target.filesz > 0 && W64(target.offset + target.filesz) <= |data| {
      preserved := PreserveNotes(data[target.offset..target.offset + target.filesz], newNames);
    }
    all := preserved + combined;
    NothingKept(newNames);
    FlattenAppend(Keep(OldNotes(data), Names(notes)), Chunks(notes));
  }

  /** The notes' address, and the PT_LOAD to stretch when one is to cover them. */
  method PlaceNotes(img: seq<byte>, t: Table, loadIdx: int, load: Phdr, notes: seq<Note>, size: nat)
    returns (vaddr: nat, stretch: Stretch)
    requires Writable(img) && t == TableOf(img) && loadIdx == LoadIndex(img) && load == ExtendedLoad(img)
    ensures vaddr == NoteVaddr(img, notes) && stretch == StretchOf(img, notes, size)
  {
    hide Field, W64, AlignPage, HasType, LoadIndex, TargetIndex;
    var isSmol := exists n :: n in notes && n.name == PressedData();
    var isDynamic := false;
    if !isSmol {
      isDynamic := FindInterp(img, t);
    }
    var gap := W64(|img| - FileEnd(load));
    vaddr, stretch := W64(load.vaddr + load.filesz + gap), NoStretch;
    if loadIdx >= 0 && isDynamic {
      var at := EntryOffset(t, loadIdx);
      stretch := To(at, W64(load.filesz + gap + size), W64(load.memsz + gap + size));
    } else if !isDynamic {
      vaddr := W64(UNMAPPED_BASE + AlignPage(|img|));
    }
  }

  /** Checks the header table and computes what to store, or the reason not to. */
  method MakePlan(img: seq<byte>, notes: seq<Note>) returns (refused: Option<Error>, p: Plan)
    requires IsElf64LE(img) && (TableFits(img, TableOf(img)) ==> Sane(img))
    ensures refused == TableRefusal(img)
    ensures refused.None? ==> p == PlanOf(img, notes)
  {
    var t := TableOf(img);
    refused, p := None, Plan(0, 0, NoStretch, []);
    if t.count == 0 { return Some(NoProgramHeaders), p; }
    if t.esz < ENTRY_LEN { return Some(BadEntrySize), p; }
    AtIs(t, t.count);
    if t.off > |img| || t.count * t.esz > |img| - t.off { return Some(TableOutOfBounds), p; }
    var loadIdx, load := FindLastLoad(img, t);
    var noteIdx := FindLastNote(img, t);
    if noteIdx < 0 { return Some(NoNoteEntry), p; }
    PhdrsAt(img, t, t.count, noteIdx);
    var noteAt := EntryOffset(t, noteIdx);
    var all := CombineNotes(img, Entry(img, noteAt), notes);
    var vaddr, stretch := PlaceNotes(img, t, loadIdx, load, notes, |all|);
    p := Plan(noteAt, vaddr, stretch, all);
  }

  method PatchHeaders(data: array<byte>, p: Plan)
    requires Applies(p, data[..])
    modifies data
    ensures data[..] == Patched(old(data[..]), p)
  {
    if p.load.To? {
      PatchLoad(data, p.load.at, p.load.filesz, p.load.memsz);
    }
    PatchNote(data, p.noteAt, data.Length, p.vaddr, |p.all|);
  }

  /** The flipped byte stands behind the first bytes of the header. */
  lemma SameHead(input: seq<byte>, flip: bool)
    ensures forall j :: 0 <= j < 6 && j < |input| ==> Modified(input, flip)[j] == input[j]
  {
  }

  method ReuseMultiPtnote(input: seq<byte>, notes: seq<Note>, flip: bool) returns (r: Result)
    requires var img := Modified(input, flip);
      |img| >= 64 && TableFits(img, TableOf(img)) ==> Sane(img)
    ensures r == Rewrite(Modified(input, flip), notes)
  {
    hide Field, Flipped, TableOf, TableRefusal, Patched, PlanOf;
    SameHead(input, flip);
    if notes == [] { return Err(NoNotes); }
    if !HasMagic(input) { return Err(InvalidElf); }
    if input[4] != 2 { return Err(Not64Bit); }
    if input[5] != 1 { return Err(NotLittleEndian); }
    var data := new byte[|input|](i requires 0 <= i < |input| => input[i]);
    assert data[..] == input;
    if flip { FlipSeaFuseRaw(data); }
    var img := data[..];
    assert img == Modified(input, flip);
    var refused, p := MakePlan(img, notes);
    if refused.Some? { return Err(refused.value); }
    PatchHeaders(data, p);
    r := Ok(data[..] + p.all);
  }

  /** The convenience form for one note and no fuse. */
  method ReuseSinglePtnote(stub: seq<byte>, name: seq<byte>, desc: seq<byte>) returns (r: Result)
    requires |stub| >= 64 && TableFits(stub, TableOf(stub)) ==> Sane(stub)
    ensures r == Rewrite(stub, [Note(name, desc)])
  {
    r := ReuseMultiPtnote(stub, [Note(name, desc)], false);
  }
}
