/**
  The ELF note record (System V gABI, chapter 5, "Note Section"): the writer's
  encoding, the scan the writer uses to find notes worth keeping, and the walk
  the reader uses to find a note by name.
 */
module NoteCodec {
  import opened Alignment
  import opened Bytes
  import opened Options

  /** A note to be added: its C-string name without the terminator, and its data. */
  datatype Note = Note(name: seq<byte>, desc: seq<byte>)

  const NAME_CAP := 1024
  const DESC_CAP := 100 * 1024 * 1024

  function Zeros(n: nat): (r: seq<byte>)
    ensures |r| == n
  {
    seq(n, _ => 0)
  }

  // ---- One encoded note ---------------------------------------------------

  function Header(n: Note): (r: seq<byte>)
    ensures |r| == 12
  {
    ToLE(|n.name| + 1, 4) + ToLE(|n.desc|, 4) + ToLE(0, 4)
  }

  /** Header, name and data, the last two padded with zeros to `a` and `d` bytes. */
  function Layout(header: seq<byte>, name: seq<byte>, desc: seq<byte>, a: nat, d: nat): (r: seq<byte>)
    requires |name| <= a && |desc| <= d
    ensures |r| == |header| + a + d
  {
    header + name + Zeros(a - |name|) + desc + Zeros(d - |desc|)
  }

  /** Three header words, the name with its terminator, and the data, each padded to 4. */
  function Chunk(n: Note): (r: seq<byte>)
    ensures |r| == 12 + Align4(|n.name| + 1) + Align4(|n.desc|)
  {
    Layout(Header(n), n.name + [0], n.desc, Align4(|n.name| + 1), Align4(|n.desc|))
  }

  function NameSize(c: seq<byte>): nat
    requires |c| >= 12
  {
    Field(c, 0, 4)
  }

  function DescSize(c: seq<byte>): nat
    requires |c| >= 12
  {
    Field(c, 4, 4)
  }

  function Total(c: seq<byte>): (r: nat)
    requires |c| >= 12
    ensures r >= 12
  {
    12 + Align4(NameSize(c)) + Align4(DescSize(c))
  }

  /** The bytes start with a complete note. */
  predicate Fits(s: seq<byte>) {
    |s| >= 12 && Total(s) <= |s|
  }

  /** The bytes are exactly one note. */
  predicate IsChunk(c: seq<byte>) {
    |c| >= 12 && Total(c) == |c|
  }

  /** The name without its terminator; a name of size 0 reads as empty. */
  function NameOf(c: seq<byte>): seq<byte>
    requires IsChunk(c)
  {
    if NameSize(c) == 0 then [] else c[12..12 + NameSize(c) - 1]
  }

  function DescOf(c: seq<byte>): seq<byte>
    requires IsChunk(c)
  {
    c[12 + Align4(NameSize(c))..12 + Align4(NameSize(c)) + DescSize(c)]
  }

  /** Within the limits the reader insists on. */
  predicate Capped(c: seq<byte>)
    requires |c| >= 12
  {
    NameSize(c) <= NAME_CAP && DescSize(c) <= DESC_CAP
  }

  /** The note sizes fit the 32-bit header words. */
  predicate Encodable(n: Note) {
    |n.name| + 1 < TWO_32 && |n.desc| < TWO_32
  }

  predicate WithinCaps(n: Note) {
    |n.name| + 1 <= NAME_CAP && |n.desc| <= DESC_CAP
  }

  /** Reading an encoded note gives back its name and its data, whatever bytes follow. */
  lemma ChunkRoundTrip(n: Note)
    requires Encodable(n)
    ensures IsChunk(Chunk(n)) && NameOf(Chunk(n)) == n.name && DescOf(Chunk(n)) == n.desc
    ensures Capped(Chunk(n)) <==> WithinCaps(n)
  {
    hide Field, ToLE, Header, Align4;
    ChunkHeader(n);
  }

  lemma ChunkHeader(n: Note)
    requires Encodable(n)
    ensures NameSize(Chunk(n)) == |n.name| + 1 && DescSize(Chunk(n)) == |n.desc|
  {
    hide Field, Align4;
    Widths();
    assert Chunk(n)[0..4] == ToLE(|n.name| + 1, 4);
    assert Chunk(n)[4..8] == ToLE(|n.desc|, 4);
    FieldIs(Chunk(n), 0, |n.name| + 1, 4);
    FieldIs(Chunk(n), 4, |n.desc|, 4);
  }

  lemma PrefixFields(s: seq<byte>, n: nat)
    requires 12 <= n <= |s|
    ensures NameSize(s[..n]) == NameSize(s) && DescSize(s[..n]) == DescSize(s)
  {
    SameField(s[..n], 0, s, 0, 4);
    SameField(s[..n], 4, s, 4, 4);
  }

  // ---- A segment of notes -------------------------------------------------

  /** The notes the writer recognises: complete notes from the start, until one does not fit. */
  function Scan(s: seq<byte>): (r: seq<seq<byte>>)
    ensures forall i :: 0 <= i < |r| ==> IsChunk(r[i])
    decreases |s|
  {
    if Fits(s) then
      PrefixFields(s, Total(s));
      [s[..Total(s)]] + Scan(s[Total(s)..])
    else []
  }

  /** The notes the reader walks over: like the scan, but it stops at an oversized note. */
  function Walk(s: seq<byte>): (r: seq<seq<byte>>)
    ensures forall i :: 0 <= i < |r| ==> IsChunk(r[i]) && Capped(r[i])
    decreases |s|
  {
    if Fits(s) && Capped(s) then
      PrefixFields(s, Total(s));
      [s[..Total(s)]] + Walk(s[Total(s)..])
    else []
  }

  /** The whole size of the note whose header stands at `pos`. */
  function TotalAt(data: seq<byte>, pos: nat): (r: nat)
    requires pos + 12 <= |data|
    ensures r >= 12
  {
    12 + Align4(Field(data, pos, 4)) + Align4(Field(data, pos + 4, 4))
  }

  predicate FitsAt(data: seq<byte>, pos: nat) {
    pos + 12 <= |data| && pos + TotalAt(data, pos) <= |data|
  }

  /** The name at `pos`, without the terminator its size counts. */
  function NameAt(data: seq<byte>, pos: nat): seq<byte>
    requires FitsAt(data, pos)
  {
    var namesz := Field(data, pos, 4);
    if namesz > 0 then data[pos + 12..pos + 12 + namesz - 1] else []
  }

  function DescAt(data: seq<byte>, pos: nat): seq<byte>
    requires FitsAt(data, pos)
  {
    var start := pos + 12 + Align4(Field(data, pos, 4));
    data[start..start + Field(data, pos + 4, 4)]
  }

  /** Reading a note in place is reading its bytes on their own. */
  lemma NoteAt(data: seq<byte>, pos: nat)
    requires pos + 12 <= |data|
    ensures var rest := data[pos..];
      && Total(rest) == TotalAt(data, pos) && (Fits(rest) <==> FitsAt(data, pos))
      && NameSize(rest) == Field(data, pos, 4) && DescSize(rest) == Field(data, pos + 4, 4)
      && (FitsAt(data, pos) ==>
            && rest[..Total(rest)] == data[pos..pos + TotalAt(data, pos)]
            && rest[Total(rest)..] == data[pos + TotalAt(data, pos)..])
  {
    SameField(data[pos..], 0, data, pos, 4);
    SameField(data[pos..], 4, data, pos + 4, 4);
  }

  lemma NoteAtHeader(data: seq<byte>, pos: nat)
    requires FitsAt(data, pos)
    ensures var c := data[pos..pos + TotalAt(data, pos)];
      NameSize(c) == Field(data, pos, 4) && DescSize(c) == Field(data, pos + 4, 4) && IsChunk(c)
  {
    var end := pos + TotalAt(data, pos);
    SliceSlice(data, pos, end, 0, 4);
    SliceSlice(data, pos, end, 4, 8);
    SameField(data[pos..end], 0, data, pos, 4);
    SameField(data[pos..end], 4, data, pos + 4, 4);
  }

  lemma NoteAtParts(data: seq<byte>, pos: nat)
    requires FitsAt(data, pos)
    ensures var c := data[pos..pos + TotalAt(data, pos)];
      IsChunk(c) && NameOf(c) == NameAt(data, pos) && DescOf(c) == DescAt(data, pos)
  {
    hide Field, IsChunk, NameOf, DescOf, NameAt, DescAt;
    NoteAtHeader(data, pos);
    NoteAtName(data, pos);
    NoteAtDesc(data, pos);
  }

  lemma NoteAtName(data: seq<byte>, pos: nat)
    requires FitsAt(data, pos)
    ensures var c := data[pos..pos + TotalAt(data, pos)];
      IsChunk(c) && NameOf(c) == NameAt(data, pos)
  {
    hide Field;
    NoteAtHeader(data, pos);
    var a := Field(data, pos, 4);
    if a > 0 {
      SliceSlice(data, pos, pos + TotalAt(data, pos), 12, 12 + a - 1);
    }
  }

  lemma NoteAtDesc(data: seq<byte>, pos: nat)
    requires FitsAt(data, pos)
    ensures var c := data[pos..pos + TotalAt(data, pos)];
      IsChunk(c) && DescOf(c) == DescAt(data, pos)
  {
    hide Field, Align4;
    NoteAtHeader(data, pos);
    var start := 12 + Align4(Field(data, pos, 4));
    SliceSlice(data, pos, pos + TotalAt(data, pos), start, start + Field(data, pos + 4, 4));
  }

  ghost predicate AllChunks(cs: seq<seq<byte>>) {
    forall i :: 0 <= i < |cs| ==> IsChunk(cs[i])
  }

  ghost predicate AllCapped(cs: seq<seq<byte>>)
    requires AllChunks(cs)
  {
    forall i :: 0 <= i < |cs| ==> Capped(cs[i])
  }

  /** The scan from `pos` on takes the note there and goes on behind it. */
  lemma ScanFrom(data: seq<byte>, pos: nat)
    requires pos <= |data|
    ensures Scan(data[pos..]) ==
            if FitsAt(data, pos) then [data[pos..pos + TotalAt(data, pos)]] + Scan(data[pos + TotalAt(data, pos)..]) else []
  {
    if pos + 12 <= |data| {
      NoteAt(data, pos);
    }
  }

  /** The header at `pos` is within the reader's limits. */
  predicate CappedAt(data: seq<byte>, pos: nat)
    requires pos + 12 <= |data|
  {
    Field(data, pos, 4) <= NAME_CAP && Field(data, pos + 4, 4) <= DESC_CAP
  }

  lemma WalkFrom(data: seq<byte>, pos: nat)
    requires pos <= |data|
    ensures Walk(data[pos..]) ==
            if FitsAt(data, pos) && CappedAt(data, pos)
            then [data[pos..pos + TotalAt(data, pos)]] + Walk(data[pos + TotalAt(data, pos)..]) else []
  {
    if pos + 12 <= |data| {
      NoteAt(data, pos);
    }
  }

  lemma ScanStep(c: seq<byte>, rest: seq<byte>)
    requires IsChunk(c)
    ensures Scan(c + rest) == [c] + Scan(rest)
  {
    var s := c + rest;
    assert s[..|c|] == c && s[|c|..] == rest;
    PrefixFields(s, |c|);
  }

  /** Scanning concatenated notes splits them again, and goes on with what follows them. */
  lemma {:induction false} ScanFlatten(cs: seq<seq<byte>>, rest: seq<byte>)
    requires AllChunks(cs)
    ensures Scan(Flatten(cs) + rest) == cs + Scan(rest)
  {
    if cs == [] {
      assert Flatten(cs) + rest == rest;
    } else {
      var c, more := cs[0], cs[1..];
      ScanFlatten(more, rest);
      ScanStep(c, Flatten(more) + rest);
      Assoc(c, Flatten(more), rest);
      HeadTail(cs);
      Assoc([c], more, Scan(rest));
    }
  }

  /** The scanned notes are exactly a prefix of the bytes. */
  lemma {:induction false} FlattenScan(s: seq<byte>)
    ensures Flatten(Scan(s)) <= s
    decreases |s|
  {
    if Fits(s) {
      FlattenScan(s[Total(s)..]);
      assert s == s[..Total(s)] + s[Total(s)..];
      assert Scan(s)[1..] == Scan(s[Total(s)..]);
    }
  }

  /** The reader sees the writer's notes up to the first oversized one. */
  function CappedPrefix(cs: seq<seq<byte>>): seq<seq<byte>>
    requires AllChunks(cs)
  {
    if cs == [] || !Capped(cs[0]) then [] else [cs[0]] + CappedPrefix(cs[1..])
  }

  lemma {:induction false} WalkIsCappedScan(s: seq<byte>)
    ensures Walk(s) == CappedPrefix(Scan(s))
    decreases |s|
  {
    if Fits(s) {
      PrefixFields(s, Total(s));
      WalkIsCappedScan(s[Total(s)..]);
      assert Scan(s)[1..] == Scan(s[Total(s)..]);
    }
  }

  /** The walk misses nothing exactly when every recognised note is within the caps. */
  lemma {:induction false} CappedPrefixComplete(cs: seq<seq<byte>>)
    requires AllChunks(cs)
    ensures CappedPrefix(cs) == cs <==> AllCapped(cs)
  {
    if cs != [] {
      CappedPrefixComplete(cs[1..]);
      assert cs == [cs[0]] + cs[1..];
      if Capped(cs[0]) && AllCapped(cs[1..]) {
        assert AllCapped(cs) by {
          forall i | 0 <= i < |cs| ensures Capped(cs[i]) {
            if i > 0 { assert cs[i] == cs[1..][i - 1]; }
          }
        }
      }
      if AllCapped(cs) {
        forall i | 0 <= i < |cs[1..]| ensures Capped(cs[1..][i]) {
          assert cs[1..][i] == cs[i + 1];
        }
      }
      if CappedPrefix(cs) == cs {
        assert CappedPrefix(cs)[1..] == cs[1..];
      }
    }
  }

  // ---- Replace-or-add -----------------------------------------------------

  /** The notes whose name is not in `names`, in order. */
  function Keep(cs: seq<seq<byte>>, names: set<seq<byte>>): (r: seq<seq<byte>>)
    requires AllChunks(cs)
    ensures AllChunks(r)
  {
    if cs == [] then []
    else if NameOf(cs[0]) in names then Keep(cs[1..], names)
    else [cs[0]] + Keep(cs[1..], names)
  }

  function Chunks(ns: seq<Note>): (r: seq<seq<byte>>)
    ensures |r| == |ns| && forall i :: 0 <= i < |ns| ==> r[i] == Chunk(ns[i])
  {
    seq(|ns|, i requires 0 <= i < |ns| => Chunk(ns[i]))
  }

  function Names(ns: seq<Note>): set<seq<byte>> {
    set n | n in ns :: n.name
  }

  ghost predicate AllEncodable(ns: seq<Note>) {
    forall i :: 0 <= i < |ns| ==> Encodable(ns[i])
  }

  lemma ChunksAreChunks(ns: seq<Note>)
    requires AllEncodable(ns)
    ensures AllChunks(Chunks(ns))
  {
    forall i | 0 <= i < |ns| ensures IsChunk(Chunks(ns)[i]) { ChunkRoundTrip(ns[i]); }
  }

  /** The new contents of a note list: replace-or-add of `ns`. */
  function Update(cs: seq<seq<byte>>, ns: seq<Note>): seq<seq<byte>>
    requires AllChunks(cs)
  {
    Keep(cs, Names(ns)) + Chunks(ns)
  }

  lemma {:induction false} KeepAppend(a: seq<seq<byte>>, b: seq<seq<byte>>, names: set<seq<byte>>)
    requires AllChunks(a) && AllChunks(b)
    ensures Keep(a + b, names) == Keep(a, names) + Keep(b, names)
  {
    if a == [] {
      assert a + b == b;
    } else {
      assert (a + b)[0] == a[0] && (a + b)[1..] == a[1..] + b;
      KeepAppend(a[1..], b, names);
      Assoc([a[0]], Keep(a[1..], names), Keep(b, names));
    }
  }

  lemma {:induction false} KeepKeep(cs: seq<seq<byte>>, m: set<seq<byte>>, n: set<seq<byte>>)
    requires AllChunks(cs)
    ensures Keep(Keep(cs, m), n) == Keep(cs, m + n)
  {
    if cs != [] {
      KeepKeep(cs[1..], m, n);
      assert ([cs[0]] + Keep(cs[1..], m))[1..] == Keep(cs[1..], m);
    }
  }

  /** A kept note is one of the given notes and none of the dropped ones, and nothing else is lost. */
  lemma {:induction false} KeepMembers(cs: seq<seq<byte>>, names: set<seq<byte>>, c: seq<byte>)
    requires AllChunks(cs)
    ensures c in Keep(cs, names) <==> c in cs && IsChunk(c) && NameOf(c) !in names
  {
    if cs != [] {
      KeepMembers(cs[1..], names, c);
      assert cs == [cs[0]] + cs[1..];
    }
  }

  function Filtered(ns: seq<Note>, names: set<seq<byte>>): seq<Note> {
    if ns == [] then []
    else if ns[0].name in names then Filtered(ns[1..], names)
    else [ns[0]] + Filtered(ns[1..], names)
  }

  lemma {:induction false} KeepChunks(ns: seq<Note>, names: set<seq<byte>>)
    requires AllEncodable(ns)
    ensures AllChunks(Chunks(ns)) && Keep(Chunks(ns), names) == Chunks(Filtered(ns, names))
  {
    ChunksAreChunks(ns);
    if ns != [] {
      ChunkRoundTrip(ns[0]);
      KeepChunks(ns[1..], names);
      assert Chunks(ns)[0] == Chunk(ns[0]) && Chunks(ns)[1..] == Chunks(ns[1..]);
      ChunksAppend([ns[0]], Filtered(ns[1..], names));
      assert Chunks([ns[0]]) == [Chunk(ns[0])];
    }
  }

  lemma ChunksAppend(a: seq<Note>, b: seq<Note>)
    ensures Chunks(a + b) == Chunks(a) + Chunks(b)
  {
  }

  /**
    Two updates in a row: the originals under neither set of names, then the
    first notes not named again, then the second notes.
   */
  lemma UpdateTwice(cs: seq<seq<byte>>, n1: seq<Note>, n2: seq<Note>)
    requires AllChunks(cs) && AllEncodable(n1)
    ensures AllChunks(Update(cs, n1))
    ensures Update(Update(cs, n1), n2)
         == Keep(cs, Names(n1) + Names(n2)) + Chunks(Filtered(n1, Names(n2))) + Chunks(n2)
  {
    ChunksAreChunks(n1);
    KeepAppend(Keep(cs, Names(n1)), Chunks(n1), Names(n2));
    KeepKeep(cs, Names(n1), Names(n2));
    KeepChunks(n1, Names(n2));
  }

  lemma {:induction false} FilteredSelf(ns: seq<Note>, names: set<seq<byte>>)
    requires forall n :: n in ns ==> n.name in names
    ensures Filtered(ns, names) == []
  {
    if ns != [] { FilteredSelf(ns[1..], names); }
  }

  /** Writing the same notes again changes nothing. */
  lemma UpdateIdempotent(cs: seq<seq<byte>>, ns: seq<Note>)
    requires AllChunks(cs) && AllEncodable(ns)
    ensures AllChunks(Update(cs, ns)) && Update(Update(cs, ns), ns) == Update(cs, ns)
  {
    var names := Names(ns);
    UpdateTwice(cs, ns, ns);
    FilteredSelf(ns, names);
    assert names + names == names;
    assert Keep(cs, names) + [] == Keep(cs, names);
  }

  // ---- Finding a note by name ---------------------------------------------

  function Find(cs: seq<seq<byte>>, name: seq<byte>): (r: Option<seq<byte>>)
    requires AllChunks(cs)
    ensures r.None? <==> forall i :: 0 <= i < |cs| ==> NameOf(cs[i]) != name
  {
    if cs == [] then None
    else if NameOf(cs[0]) == name then Some(DescOf(cs[0]))
    else
      var r := Find(cs[1..], name);
      assert forall i :: 0 < i < |cs| ==> cs[i] == cs[1..][i - 1];
      r
  }

  lemma {:induction false} FindAppend(a: seq<seq<byte>>, b: seq<seq<byte>>, name: seq<byte>)
    requires AllChunks(a) && AllChunks(b)
    ensures Find(a + b, name) == if Find(a, name).Some? then Find(a, name) else Find(b, name)
  {
    if a == [] {
      assert a + b == b;
    } else {
      assert (a + b)[1..] == a[1..] + b;
      FindAppend(a[1..], b, name);
    }
  }

  lemma {:induction false} FindKept(cs: seq<seq<byte>>, names: set<seq<byte>>, name: seq<byte>)
    requires AllChunks(cs)
    ensures Find(Keep(cs, names), name) == if name in names then None else Find(cs, name)
  {
    if cs != [] {
      FindKept(cs[1..], names, name);
      assert ([cs[0]] + Keep(cs[1..], names))[1..] == Keep(cs[1..], names);
    }
  }

  ghost predicate DistinctNames(ns: seq<Note>) {
    forall i, j :: 0 <= i < j < |ns| ==> ns[i].name != ns[j].name
  }

  lemma {:induction false} FindNew(ns: seq<Note>, k: nat)
    requires k < |ns| && AllEncodable(ns) && DistinctNames(ns)
    ensures AllChunks(Chunks(ns)) && Find(Chunks(ns), ns[k].name) == Some(ns[k].desc)
  {
    hide Chunk, NameOf, DescOf, Capped, Encodable;
    ChunksAreChunks(ns);
    ChunkRoundTrip(ns[0]);
    assert Chunks(ns)[1..] == Chunks(ns[1..]);
    if k > 0 {
      FindNew(ns[1..], k - 1);
    }
  }

  lemma FindAbsentNew(ns: seq<Note>, name: seq<byte>)
    requires AllEncodable(ns) && name !in Names(ns)
    ensures AllChunks(Chunks(ns)) && Find(Chunks(ns), name) == None
  {
    ChunksAreChunks(ns);
    forall i | 0 <= i < |ns| ensures NameOf(Chunks(ns)[i]) != name {
      ChunkRoundTrip(ns[i]);
      assert ns[i] in ns;
    }
  }

  /** The update is a map update: new names read as their new data, other names as before. */
  lemma FindAfterUpdate(cs: seq<seq<byte>>, ns: seq<Note>, name: seq<byte>)
    requires AllChunks(cs) && AllEncodable(ns) && DistinctNames(ns)
    ensures AllChunks(Update(cs, ns))
    ensures forall k :: 0 <= k < |ns| && ns[k].name == name ==> Find(Update(cs, ns), name) == Some(ns[k].desc)
    ensures name !in Names(ns) ==> Find(Update(cs, ns), name) == Find(cs, name)
  {
    hide Field, Chunk, NameOf, DescOf, IsChunk;
    ChunksAreChunks(ns);
    FindAppend(Keep(cs, Names(ns)), Chunks(ns), name);
    FindKept(cs, Names(ns), name);
    if k :| 0 <= k < |ns| && ns[k].name == name {
      assert ns[k] in ns;
      FindNew(ns, k);
    }
    if name !in Names(ns) {
      FindAbsentNew(ns, name);
    }
  }

  // ---- What the walk shows of a list --------------------------------------

  /** The data of the first note of the name, unless a note over the limits stands before it. */
  function Seen(cs: seq<seq<byte>>, name: seq<byte>): Option<seq<byte>>
    requires AllChunks(cs)
  {
    if cs == [] || !Capped(cs[0]) then None
    else if NameOf(cs[0]) == name then Some(DescOf(cs[0]))
    else Seen(cs[1..], name)
  }

  lemma {:induction false} SeenIsFind(cs: seq<seq<byte>>, name: seq<byte>)
    requires AllChunks(cs)
    ensures AllChunks(CappedPrefix(cs)) && Find(CappedPrefix(cs), name) == Seen(cs, name)
  {
    if cs != [] && Capped(cs[0]) {
      SeenIsFind(cs[1..], name);
      assert CappedPrefix(cs)[1..] == CappedPrefix(cs[1..]);
    }
  }

  lemma {:induction false} SeenAppend(a: seq<seq<byte>>, b: seq<seq<byte>>, name: seq<byte>)
    requires AllChunks(a) && AllChunks(b)
    ensures Seen(a + b, name) == if Seen(a, name).Some? then Seen(a, name) else if AllCapped(a) then Seen(b, name) else None
  {
    if a == [] {
      assert a + b == b;
    } else {
      assert (a + b)[0] == a[0] && (a + b)[1..] == a[1..] + b;
      SeenAppend(a[1..], b, name);
      CappedCons(a);
    }
  }

  lemma CappedCons(cs: seq<seq<byte>>)
    requires AllChunks(cs) && cs != []
    ensures AllCapped(cs) <==> Capped(cs[0]) && AllCapped(cs[1..])
  {
    assert forall i :: 0 < i < |cs| ==> cs[i] == cs[1..][i - 1];
    assert forall i :: 0 <= i < |cs[1..]| ==> cs[1..][i] == cs[i + 1];
  }

  lemma SeenChunk(ns: seq<Note>, name: seq<byte>)
    requires ns != [] && AllEncodable(ns)
    ensures AllChunks(Chunks(ns)) && AllEncodable(ns[1..]) && AllChunks(Chunks(ns[1..]))
    ensures Seen(Chunks(ns), name) ==
            if !WithinCaps(ns[0]) then None else if ns[0].name == name then Some(ns[0].desc) else Seen(Chunks(ns[1..]), name)
  {
    hide Chunk, Field, Capped, NameOf, DescOf, WithinCaps, IsChunk;
    ChunksAreChunks(ns);
    ChunksAreChunks(ns[1..]);
    ChunkRoundTrip(ns[0]);
    assert Chunks(ns)[0] == Chunk(ns[0]) && Chunks(ns)[1..] == Chunks(ns[1..]);
  }

  /** The notes up to place `k` are within the limits. */
  predicate WithinCapsTo(ns: seq<Note>, k: nat)
    requires k < |ns|
  {
    WithinCaps(ns[0]) && (k == 0 || WithinCapsTo(ns[1..], k - 1))
  }

  lemma DistinctTail(ns: seq<Note>, k: nat)
    requires 0 < k < |ns| && DistinctNames(ns)
    ensures DistinctNames(ns[1..]) && ns[0].name != ns[k].name
  {
  }

  /** Among distinctly named new notes one is seen exactly when it and those before it are within the limits. */
  lemma {:induction false} SeenNew(ns: seq<Note>, k: nat)
    requires k < |ns| && AllEncodable(ns) && DistinctNames(ns)
    ensures AllChunks(Chunks(ns))
    ensures Seen(Chunks(ns), ns[k].name) == if WithinCapsTo(ns, k) then Some(ns[k].desc) else None
  {
    hide Seen, Chunks, WithinCaps, DistinctNames, AllChunks, AllEncodable;
    SeenChunk(ns, ns[k].name);
    if k > 0 {
      DistinctTail(ns, k);
      SeenNew(ns[1..], k - 1);
    }
  }

  lemma {:induction false} SeenKept(cs: seq<seq<byte>>, names: set<seq<byte>>, name: seq<byte>)
    requires AllChunks(cs) && name in names
    ensures Seen(Keep(cs, names), name) == None
  {
    if cs != [] {
      SeenKept(cs[1..], names, name);
      assert ([cs[0]] + Keep(cs[1..], names))[1..] == Keep(cs[1..], names);
    }
  }

  lemma {:induction false} SeenAbsent(cs: seq<seq<byte>>, name: seq<byte>)
    requires AllChunks(cs) && Find(cs, name).None?
    ensures Seen(cs, name) == None
  {
    if cs != [] { SeenAbsent(cs[1..], name); }
  }

  /** Dropping the names uncovers a note of this name: one over the limits in front of it goes. */
  predicate Uncovers(cs: seq<seq<byte>>, names: set<seq<byte>>, name: seq<byte>)
    requires AllChunks(cs)
  {
    cs != [] && NameOf(cs[0]) != name
    && if Capped(cs[0]) then Uncovers(cs[1..], names, name)
       else NameOf(cs[0]) in names && Seen(Keep(cs[1..], names), name).Some?
  }

  lemma {:induction false} UncoversExactly(cs: seq<seq<byte>>, names: set<seq<byte>>, name: seq<byte>)
    requires AllChunks(cs) && name !in names
    ensures Seen(Keep(cs, names), name) == Seen(cs, name) <==> !Uncovers(cs, names, name)
  {
    if cs != [] {
      UncoversExactly(cs[1..], names, name);
      assert ([cs[0]] + Keep(cs[1..], names))[1..] == Keep(cs[1..], names);
    }
  }
}
