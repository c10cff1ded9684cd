/**
  The part of a 64-bit little-endian ELF image the note tools read: the header's
  program header table and its entries (System V gABI, chapter 5).
 */
module ElfImage {
  import opened Bytes

  const PT_LOAD: nat := 1
  const PT_INTERP: nat := 3
  const PT_NOTE: nat := 4
  const ENTRY_LEN: nat := 56

  // Offsets inside an entry.
  const P_FLAGS: nat := 4
  const P_OFFSET: nat := 8
  const P_VADDR: nat := 16
  const P_FILESZ: nat := 32
  const P_MEMSZ: nat := 40

  predicate HasMagic(s: seq<byte>) {
    |s| >= 64 && s[0] == 0x7f && s[1] == 'E' as int && s[2] == 'L' as int && s[3] == 'F' as int
  }

  predicate IsElf64LE(s: seq<byte>) {
    HasMagic(s) && s[4] == 2 && s[5] == 1
  }

  datatype Table = Table(off: nat, esz: nat, count: nat)

  function TableOf(s: seq<byte>): Table
    requires |s| >= 64
  {
    Table(Field(s, 32, 8), Field(s, 54, 2), Field(s, 56, 2))
  }

  /** The offset of entry `i`: `off + i * esz`, by `AtIs`. */
  function At(t: Table, i: nat): (r: nat)
    ensures r >= t.off
  {
    if i == 0 then t.off else At(t, i - 1) + t.esz
  }

  lemma {:induction false} AtIs(t: Table, i: nat)
    ensures At(t, i) == t.off + i * t.esz
  {
    if i > 0 {
      AtIs(t, i - 1);
      assert i * t.esz == (i - 1) * t.esz + t.esz;
    }
  }

  /** There are entries, each is long enough, and the table ends inside the image. */
  predicate TableFits(s: seq<byte>, t: Table) {
    t.count != 0 && t.esz >= ENTRY_LEN && At(t, t.count) <= |s|
  }

  lemma {:induction false} EntriesApart(t: Table, i: nat, j: nat)
    requires t.esz >= ENTRY_LEN && i < j
    ensures At(t, i) + ENTRY_LEN <= At(t, j)
  {
    if i < j - 1 {
      EntriesApart(t, i, j - 1);
    }
  }

  lemma EntryInside(s: seq<byte>, t: Table, i: nat)
    requires TableFits(s, t) && i < t.count
    ensures At(t, i) + ENTRY_LEN <= |s|
  {
    EntriesApart(t, i, t.count);
  }

  /** The fields of a program header entry that the tools read. */
  datatype Phdr = Phdr(ptype: nat, offset: nat, vaddr: nat, filesz: nat, memsz: nat)

  function Entry(s: seq<byte>, e: nat): Phdr
    requires e + ENTRY_LEN <= |s|
  {
    Phdr(Field(s, e, 4), Field(s, e + P_OFFSET, 8), Field(s, e + P_VADDR, 8),
         Field(s, e + P_FILESZ, 8), Field(s, e + P_MEMSZ, 8))
  }

  /** The first `n` entries of the table. */
  function Phdrs(s: seq<byte>, t: Table, n: nat): (r: seq<Phdr>)
    requires TableFits(s, t) && n <= t.count
    ensures |r| == n
  {
    if n == 0 then []
    else
      EntryInside(s, t, n - 1);
      Phdrs(s, t, n - 1) + [Entry(s, At(t, n - 1))]
  }

  lemma {:induction false} PhdrsAt(s: seq<byte>, t: Table, n: nat, i: nat)
    requires TableFits(s, t) && i < n <= t.count
    ensures At(t, i) + ENTRY_LEN <= |s| && Phdrs(s, t, n)[i] == Entry(s, At(t, i))
  {
    EntryInside(s, t, i);
    if i < n - 1 {
      PhdrsAt(s, t, n - 1, i);
    }
  }

  /** The index of the last PT_NOTE among the first `n` entries, or -1. */
  function LastNote(ps: seq<Phdr>, n: nat): (r: int)
    requires n <= |ps|
    ensures -1 <= r < n
    ensures r >= 0 ==> ps[r].ptype == PT_NOTE
    ensures forall i :: r < i < n ==> ps[i].ptype != PT_NOTE
  {
    if n == 0 then -1 else if ps[n - 1].ptype == PT_NOTE then n - 1 else LastNote(ps, n - 1)
  }

  predicate HasType(ps: seq<Phdr>, ty: nat) {
    exists i :: 0 <= i < |ps| && ps[i].ptype == ty
  }

  /** Where the entry's bytes end in the file, as the 64-bit sum the code computes. */
  function FileEnd(p: Phdr): nat {
    W64(p.offset + p.filesz)
  }

  /** The index, among the first `n`, of the PT_LOAD that ends last in the file, or -1. */
  function LastLoad(ps: seq<Phdr>, n: nat): (r: int)
    requires n <= |ps|
    ensures -1 <= r < n
    ensures r >= 0 ==> ps[r].ptype == PT_LOAD
  {
    if n == 0 then -1
    else
      var r := LastLoad(ps, n - 1);
      if ps[n - 1].ptype == PT_LOAD && (r < 0 || FileEnd(ps[n - 1]) >= FileEnd(ps[r])) then n - 1 else r
  }

  /** No PT_LOAD ends later in the file than the picked one, nor does a later entry end as late. */
  lemma {:induction false} LastLoadEndsLast(ps: seq<Phdr>, n: nat, i: nat)
    requires i < n <= |ps| && ps[i].ptype == PT_LOAD
    ensures var r := LastLoad(ps, n);
      && r >= 0 && FileEnd(ps[i]) <= FileEnd(ps[r])
      && (i > r ==> FileEnd(ps[i]) < FileEnd(ps[r]))
  {
    if i < n - 1 {
      LastLoadEndsLast(ps, n - 1, i);
    }
  }
}
