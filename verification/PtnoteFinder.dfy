/** The search for a marker in the PT_NOTE segments of an ELF file, 32-bit or 64-bit. */
module PtnoteFinder {
  import opened Bytes
  import opened Options

  const PHDR_BUFFER: nat := 4096
  const FRAME: nat := PHDR_BUFFER + 40
  const NOTE_LIMIT: nat := 64 * 1024 * 1024
  const MARKER_ROOM: nat := 128
  const NOTE: nat := 4

  /** Where the fields stand: the header's, then an entry's, the width of addresses, and how far into an entry the code reads. */
  datatype Class = Class(phoff: nat, phentsize: nat, phnum: nat, offset: nat, filesz: nat, width: nat, entry: nat)

  const ELF64 := Class(32, 54, 56, 8, 32, 8, 40)
  const ELF32 := Class(28, 42, 44, 4, 16, 4, 20)

  function ClassOf(header: seq<byte>): Class
    requires |header| == 64
  {
    if header[4] == 2 then ELF64 else ELF32
  }

  datatype Segment = Segment(ptype: nat, offset: nat, filesz: nat)

  function SegmentAt(s: seq<byte>, c: Class, e: nat): Segment
    requires c == ELF64 || c == ELF32
    requires e + c.entry <= |s|
  {
    Segment(Field(s, e, 4), Field(s, e + c.offset, c.width), Field(s, e + c.filesz, c.width))
  }

  /** The header read: the first 64 bytes of the file, and what the stack held where it is shorter. */
  function HeaderOf(file: seq<byte>, stack: seq<byte>): (r: seq<byte>)
    requires |stack| == 64
    ensures |r| == 64
  {
    if |file| >= 64 then file[..64] else file + stack[|file|..]
  }

  predicate Accepted(file: seq<byte>, h: seq<byte>)
    requires |h| == 64
  {
    |file| >= 16 && h[0] == 0x7f && h[1] == 'E' as int && h[2] == 'L' as int && h[3] == 'F' as int && h[5] == 1
  }

  /**
    The entry buffer after the read: the table, and behind it what the memory held. An
    entry may be declared shorter than the fields read from it; the last ones then end
    in that memory.
   */
  function TableBuffer(table: seq<byte>, frame: seq<byte>): (r: seq<byte>)
    requires |table| <= PHDR_BUFFER && |frame| == FRAME
    ensures |r| == FRAME
  {
    table + frame[|table|..]
  }

  function TableLen(n: nat, esz: nat): nat {
    n * esz
  }

  predicate Buffered(buf: seq<byte>, c: Class, esz: nat, n: nat) {
    (c == ELF64 || c == ELF32) && TableLen(n, esz) <= PHDR_BUFFER && |buf| == FRAME
  }

  lemma EntryInBuffer(buf: seq<byte>, c: Class, esz: nat, n: nat, i: nat)
    requires Buffered(buf, c, esz, n) && i < n
    ensures i * esz + c.entry <= |buf| && Buffered(buf, c, esz, i)
  {
    Product(i, n, esz);
  }

  lemma Product(i: nat, n: nat, esz: nat)
    requires i <= n
    ensures i * esz <= n * esz
  {
    assert (n - i) * esz >= 0;
    assert n * esz == i * esz + (n - i) * esz;
  }

  /** The first `n` entries of `esz` bytes in the buffer. */
  function Segments(buf: seq<byte>, c: Class, esz: nat, n: nat): (r: seq<Segment>)
    requires Buffered(buf, c, esz, n)
    ensures |r| == n
  {
    if n == 0 then []
    else
      EntryInBuffer(buf, c, esz, n, n - 1);
      Segments(buf, c, esz, n - 1) + [SegmentAt(buf, c, (n - 1) * esz)]
  }

  function MaxNote(segs: seq<Segment>): nat {
    if segs == [] then 0
    else
      var m, last := MaxNote(segs[..|segs| - 1]), segs[|segs| - 1];
      if last.ptype == NOTE && last.filesz > m then last.filesz else m
  }

  /** The file offset of the first marker in a segment, or -1. */
  function Hit(file: seq<byte>, p: Segment, m: seq<byte>): int {
    if p.ptype == NOTE && p.filesz >= |m| && p.offset < TWO_63 && p.offset + p.filesz <= |file| then
      var i := FirstFrom(file[p.offset..p.offset + p.filesz], m, 0);
      if i == -1 then -1 else p.offset + i
    else -1
  }

  /** The first hit by segments in table order, or -1. */
  function FirstHit(file: seq<byte>, segs: seq<Segment>, m: seq<byte>): int {
    if segs == [] then -1
    else if Hit(file, segs[0], m) != -1 then Hit(file, segs[0], m)
    else FirstHit(file, segs[1..], m)
  }

  /** The bytes read as the table when they fit the buffer and are in the file. */
  function ReadBytes(file: seq<byte>, off: nat, len: nat): (r: Option<seq<byte>>)
    ensures r.Some? ==> |r.value| == len <= PHDR_BUFFER
  {
    if len > PHDR_BUFFER || off >= TWO_63 then None
    else if len == 0 then Some([])
    else if off + len > |file| then None
    else Some(file[off..off + len])
  }

  /** The segments of the declared table when it can be read. */
  function ReadTable(file: seq<byte>, h: seq<byte>, frame: seq<byte>): Option<seq<Segment>>
    requires |h| == 64 && |frame| == FRAME
  {
    var c := ClassOf(h);
    var phoff, esz, n := Field(h, c.phoff, c.width), Field(h, c.phentsize, 2), Field(h, c.phnum, 2);
    var table := ReadBytes(file, phoff, TableLen(n, esz));
    if table.None? then None else Some(Segments(TableBuffer(table.value, frame), c, esz, n))
  }

  /** The whole search: the offset of the marker, or -1. */
  function Search(file: seq<byte>, h: seq<byte>, frame: seq<byte>, m: seq<byte>): int
    requires |h| == 64 && |frame| == FRAME
  {
    if !Accepted(file, h) || ReadTable(file, h, frame).None? || |m| >= MARKER_ROOM then -1
    else
      var segs := ReadTable(file, h, frame).value;
      if MaxNote(segs) < |m| || MaxNote(segs) > NOTE_LIMIT then -1
      else FirstHit(file, segs, m)
  }

  // ---- What is found ------------------------------------------------------

  /** The PT_NOTE segment lies in the file and holds the marker `k` bytes behind its start. */
  predicate Holds(file: seq<byte>, p: Segment, m: seq<byte>, k: nat) {
    p.ptype == 4 && p.offset < TWO_63 && p.offset + p.filesz <= |file| && k + |m| <= p.filesz
    && file[p.offset + k..p.offset + k + |m|] == m
  }

  lemma HitMeaning(file: seq<byte>, p: Segment, m: seq<byte>)
    requires m != []
    ensures var r := Hit(file, p, m);
      if r == -1 then forall k: nat :: !Holds(file, p, m, k)
      else r >= p.offset && Holds(file, p, m, r - p.offset) && forall k: nat :: k < r - p.offset ==> !Holds(file, p, m, k)
  {
    if p.ptype == NOTE && p.filesz >= |m| && p.offset < TWO_63 && p.offset + p.filesz <= |file| {
      var body := file[p.offset..p.offset + p.filesz];
      forall k: nat | k + |m| <= p.filesz ensures Holds(file, p, m, k) == MatchAt(body, m, k) {
        SliceSlice(file, p.offset, p.offset + p.filesz, k, k + |m|);
      }
    }
  }

  /** `r` is where the marker stands first in the first segment that holds it. */
  ghost predicate IsFirst(file: seq<byte>, segs: seq<Segment>, m: seq<byte>, r: int) {
    exists i :: 0 <= i < |segs| && InFirst(file, segs, m, r, i)
  }

  ghost predicate InFirst(file: seq<byte>, segs: seq<Segment>, m: seq<byte>, r: int, i: nat)
    requires i < |segs|
  {
    && r >= segs[i].offset && Holds(file, segs[i], m, r - segs[i].offset)
    && (forall k: nat :: k < r - segs[i].offset ==> !Holds(file, segs[i], m, k))
    && (forall j, k: nat :: 0 <= j < i ==> !Holds(file, segs[j], m, k))
  }

  lemma {:induction false} FirstHitMeaning(file: seq<byte>, segs: seq<Segment>, m: seq<byte>)
    requires m != []
    ensures var r := FirstHit(file, segs, m);
      if r == -1 then forall j, k: nat :: 0 <= j < |segs| ==> !Holds(file, segs[j], m, k) else r >= 0 && IsFirst(file, segs, m, r)
  {
    hide Hit, Holds;
    if segs != [] {
      HitMeaning(file, segs[0], m);
      var r := FirstHit(file, segs, m);
      var rest := segs[1..];
      if Hit(file, segs[0], m) != -1 {
        assert InFirst(file, segs, m, r, 0);
      } else {
        FirstHitMeaning(file, rest, m);
        forall j, k: nat | 0 <= j < |segs| && (j == 0 || !Holds(file, rest[j - 1], m, k)) ensures !Holds(file, segs[j], m, k) {
        }
        if r != -1 {
          var i :| 0 <= i < |rest| && InFirst(file, rest, m, r, i);
          assert InFirst(file, segs, m, r, i + 1);
        }
      }
    }
  }

  lemma {:induction false} MaxNoteMeaning(segs: seq<Segment>, bound: nat)
    ensures MaxNote(segs) <= bound <==> forall i :: 0 <= i < |segs| && segs[i].ptype == 4 ==> segs[i].filesz <= bound
  {
    if segs != [] {
      MaxNoteMeaning(segs[..|segs| - 1], bound);
    }
  }

  /** A file header the search accepts: at least 16 bytes were read, with the magic number of ELF and little-endian data. */
  predicate LittleElf(file: seq<byte>, h: seq<byte>)
    requires |h| == 64
  {
    |file| >= 16 && h[..4] == [0x7f, 0x45, 0x4c, 0x46] && h[5] == 1
  }

  /**
    The search finds something exactly in an accepted file with a readable table, no PT_NOTE
    above 64 MiB and one that holds the marker; and then the first place in the first of them.
   */
  lemma SearchMeaning(file: seq<byte>, h: seq<byte>, frame: seq<byte>, m: seq<byte>)
    requires |h| == 64 && |frame| == FRAME && m != []
    ensures var r := Search(file, h, frame, m);
      if LittleElf(file, h) && |m| < 128 && ReadTable(file, h, frame).Some? then
        var segs := ReadTable(file, h, frame).value;
        if (exists i :: 0 <= i < |segs| && segs[i].ptype == 4 && segs[i].filesz > 0x4000000)
           || (forall i, k: nat :: 0 <= i < |segs| ==> !Holds(file, segs[i], m, k))
        then r == -1
        else IsFirst(file, segs, m, r)
      else r == -1
  {
    hide ReadTable, FirstHit, MaxNote, Holds, IsFirst;
    assert LittleElf(file, h) == Accepted(file, h);
    if LittleElf(file, h) && |m| < 128 && ReadTable(file, h, frame).Some? {
      var segs := ReadTable(file, h, frame).value;
      MaxNoteMeaning(segs, NOTE_LIMIT);
      MaxNoteMeaning(segs, |m| - 1);
      FirstHitMeaning(file, segs, m);
      if IsFirst(file, segs, m, FirstHit(file, segs, m)) { FirstHolds(file, segs, m, FirstHit(file, segs, m)); }
      forall i, k: nat | 0 <= i < |segs| && MaxNote(segs) < |m| ensures !Holds(file, segs[i], m, k) {
        TooSmall(file, segs[i], m, k);
      }
    }
  }

  lemma FirstHolds(file: seq<byte>, segs: seq<Segment>, m: seq<byte>, r: int)
    requires IsFirst(file, segs, m, r)
    ensures exists i, k: nat :: 0 <= i < |segs| && Holds(file, segs[i], m, k)
  {
  }

  lemma TooSmall(file: seq<byte>, p: Segment, m: seq<byte>, k: nat)
    requires p.ptype != 4 || p.filesz < |m|
    ensures !Holds(file, p, m, k)
  {
  }

  // ---- The algorithm ------------------------------------------------------

  /** The two-level search: four bytes first, the whole marker only when they agree. */
  method TwoLevelSearch(buffer: seq<byte>, marker: seq<byte>) returns (at: int)
    requires 4 <= |marker| <= |buffer|
    ensures at == FirstFrom(buffer, marker, 0)
  {
    var limit := |buffer| - |marker|;
    for pos := 0 to limit + 1
      invariant forall j :: 0 <= j < pos ==> !MatchAt(buffer, marker, j)
    {
      if buffer[pos..pos + 4] != marker[..4] {
        assert buffer[pos..pos + |marker|][..4] == buffer[pos..pos + 4];
        continue;
      }
      if buffer[pos..pos + |marker|] == marker {
        assert MatchAt(buffer, marker, pos);
        return pos;
      }
    }
    at := -1;
    assert !MatchAt(buffer, marker, FirstFrom(buffer, marker, 0));
  }

  /** The same search over a buffer in memory, for the marker of a compressed section. */
  method FindMarkerInBuffer(buffer: seq<byte>, marker: seq<byte>) returns (at: int)
    requires |marker| == 32
    ensures at == FirstFrom(buffer, marker, 0)
  {
    if |buffer| == 0 || |buffer| < 32 {
      return -1;
    }
    at := TwoLevelSearch(buffer, marker);
  }

  lemma SegmentsAt(buf: seq<byte>, c: Class, esz: nat, n: nat, i: nat)
    requires Buffered(buf, c, esz, n) && i < n
    ensures i * esz + c.entry <= |buf| && Segments(buf, c, esz, n)[i] == SegmentAt(buf, c, i * esz)
  {
    EntryInBuffer(buf, c, esz, n, n - 1);
    EntryInBuffer(buf, c, esz, n, i);
    if i < n - 1 {
      SegmentsAt(buf, c, esz, n - 1, i);
    }
  }

  lemma MaxNoteStep(segs: seq<Segment>, i: nat)
    requires i < |segs|
    ensures MaxNote(segs[..i + 1]) ==
            if segs[i].ptype == NOTE && segs[i].filesz > MaxNote(segs[..i]) then segs[i].filesz else MaxNote(segs[..i])
  {
    assert segs[..i + 1][..i] == segs[..i];
  }

  lemma FirstHitFrom(file: seq<byte>, segs: seq<Segment>, m: seq<byte>, i: nat)
    requires i < |segs|
    ensures FirstHit(file, segs[i..], m) ==
            if Hit(file, segs[i], m) != -1 then Hit(file, segs[i], m) else FirstHit(file, segs[i + 1..], m)
  {
    assert segs[i..][1..] == segs[i + 1..];
  }

  method LargestNote(buf: seq<byte>, c: Class, esz: nat, n: nat) returns (max: nat)
    requires Buffered(buf, c, esz, n)
    ensures max == MaxNote(Segments(buf, c, esz, n))
  {
    hide Field, MaxNote, TableLen;
    ghost var segs := Segments(buf, c, esz, n);
    max := 0;
    assert MaxNote(segs[..0]) == 0 by { NoSegments(segs); }
    for i := 0 to n
      invariant max == MaxNote(segs[..i])
    {
      SegmentsAt(buf, c, esz, n, i);
      MaxNoteStep(segs, i);
      var p := SegmentAt(buf, c, i * esz);
      if p.ptype != NOTE { continue; }
      if p.filesz > max { max := p.filesz; }
    }
    assert segs[..n] == segs;
  }

  lemma NoSegments(segs: seq<Segment>)
    ensures MaxNote(segs[..0]) == 0
  {
  }

  method SearchSegments(file: seq<byte>, buf: seq<byte>, c: Class, esz: nat, n: nat, marker: seq<byte>) returns (at: int)
    requires Buffered(buf, c, esz, n) && 4 <= |marker|
    ensures at == FirstHit(file, Segments(buf, c, esz, n), marker)
  {
    hide Field, FirstHit, FirstFrom, TableLen;
    ghost var segs := Segments(buf, c, esz, n);
    assert segs[0..] == segs;
    for i := 0 to n
      invariant FirstHit(file, segs, marker) == FirstHit(file, segs[i..], marker)
    {
      SegmentsAt(buf, c, esz, n, i);
      FirstHitFrom(file, segs, marker, i);
      var p := SegmentAt(buf, c, i * esz);
      if p.ptype != NOTE { continue; }
      if p.filesz < |marker| { continue; }
      if p.offset >= TWO_63 { continue; }
      if p.offset + p.filesz > |file| { continue; }
      at := TwoLevelSearch(file[p.offset..p.offset + p.filesz], marker);
      if at != -1 {
        return p.offset + at;
      }
    }
    NoHit(file, segs[n..], marker);
    at := -1;
  }

  lemma NoHit(file: seq<byte>, segs: seq<Segment>, m: seq<byte>)
    ensures segs == [] ==> FirstHit(file, segs, m) == -1
  {
  }

  /** Returns the offset at, or after, the marker that `Search` describes, or -1. */
  method FindMarkerInPtnote(file: seq<byte>, stack: seq<byte>, frame: seq<byte>, marker: seq<byte>, returnAfter: bool) returns (r: int)
    requires |stack| == 64 && |frame| == FRAME && 4 <= |marker|
    ensures var at := Search(file, HeaderOf(file, stack), frame, marker);
      r == if at == -1 then -1 else if returnAfter then at + |marker| else at
  {
    hide Field, FirstHit, MaxNote, Segments, MatchAt, FirstFrom, TableLen, TableBuffer;
    var h := HeaderOf(file, stack);
    if |file| < 16 { return -1; }
    if h[0] != 0x7f || h[1] != 'E' as int || h[2] != 'L' as int || h[3] != 'F' as int { return -1; }
    if h[5] != 1 { return -1; }
    var c := if h[4] == 2 then ELF64 else ELF32;
    var phoff, esz, n := Field(h, c.phoff, c.width), Field(h, c.phentsize, 2), Field(h, c.phnum, 2);
    var len := TableLen(n, esz);
    if len > PHDR_BUFFER { return -1; }
    if phoff >= TWO_63 { return -1; }
    if len != 0 && phoff + len > |file| { return -1; }
    if |marker| >= MARKER_ROOM { return -1; }
    var buf := TableBuffer(if len == 0 then [] else file[phoff..phoff + len], frame);
    var at := FindInTable(file, buf, c, esz, n, marker);
    r := if at == -1 then -1 else if returnAfter then at + |marker| else at;
  }

  /** The two passes over the buffered entries. */
  method FindInTable(file: seq<byte>, buf: seq<byte>, c: Class, esz: nat, n: nat, marker: seq<byte>) returns (at: int)
    requires Buffered(buf, c, esz, n) && 4 <= |marker|
    ensures var segs := Segments(buf, c, esz, n);
      at == if MaxNote(segs) < |marker| || MaxNote(segs) > NOTE_LIMIT then -1 else FirstHit(file, segs, marker)
  {
    hide Field, FirstHit, MaxNote, Segments, TableLen;
    var max := LargestNote(buf, c, esz, n);
    if max < |marker| || max > NOTE_LIMIT { return -1; }
    at := SearchSegments(file, buf, c, esz, n, marker);
  }
}
