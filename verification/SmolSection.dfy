/**
  The SMOL section: the record in front of the compressed data, its builder, the
  two readers of it, its validation, and the integrity check. The hash function
  is a parameter.
 */
module SmolSection {
  import opened Bytes
  import opened Options

  const MARKER_LEN: nat := 32
  const KEY_LEN: nat := 16
  const PLATFORM_LEN: nat := 3
  const HASH_LEN: nat := 64
  const CONFIG_LEN: nat := 1192
  const HEADER_LEN: nat := 16 + KEY_LEN + PLATFORM_LEN + HASH_LEN + 1

  function Marker(): (r: seq<byte>)
    ensures |r| == MARKER_LEN
  {
    Ascii("__SMOL") + Ascii("_PRESSED_DATA") + Ascii("_MAGIC_MARKER")
  }

  // ---- Cache key ----------------------------------------------------------

  function HexDigit(x: nat): byte
    requires x < 16
  {
    if x < 10 then '0' as int + x else 'a' as int + (x - 10)
  }

  /** The first `n` bytes as lower-case hexadecimal digits. */
  function Hex(hash: seq<byte>, n: nat): (r: seq<byte>)
    requires n <= |hash|
    ensures |r| == 2 * n
  {
    if n == 0 then [] else Hex(hash, n - 1) + [HexDigit(hash[n - 1] / 16), HexDigit(hash[n - 1] % 16)]
  }

  function CacheKey(hash: seq<byte>): (r: seq<byte>)
    requires |hash| == HASH_LEN
    ensures |r| == KEY_LEN
  {
    Hex(hash, KEY_LEN / 2)
  }

  predicate IsHex(c: byte) {
    '0' as int <= c <= '9' as int || 'a' as int <= c <= 'f' as int || 'A' as int <= c <= 'F' as int
  }

  /** The characters validation takes are the digits of the key and their capitals. */
  lemma IsHexExactly(c: byte)
    ensures IsHex(c) <==> exists x :: 0 <= x < 16 && (c == HexDigit(x) || (x >= 10 && c + 32 == HexDigit(x)))
  {
    if IsHex(c) {
      var x := if c <= '9' as int then c - '0' as int else if c >= 'a' as int then c - 'a' as int + 10 else c - 'A' as int + 10;
      assert c == HexDigit(x) || (x >= 10 && c + 32 == HexDigit(x));
    }
  }

  lemma {:induction false} HexIsHex(hash: seq<byte>, n: nat, i: nat)
    requires n <= |hash| && i < 2 * n
    ensures IsHex(Hex(hash, n)[i])
  {
    if i < 2 * (n - 1) { HexIsHex(hash, n - 1, i); }
  }

  /** The value of a lower-case hexadecimal digit. */
  function DigitValue(c: byte): int {
    if '0' as int <= c <= '9' as int then c - '0' as int else if 'a' as int <= c <= 'f' as int then c - 'a' as int + 10 else -1
  }

  /** Digits `2i` and `2i + 1` spell byte `i`, the high one first, in lower case. */
  lemma {:induction false} HexSpells(hash: seq<byte>, n: nat, i: nat)
    requires i < n <= |hash|
    ensures var r := Hex(hash, n);
      && 0 <= DigitValue(r[2 * i]) < 16 && 0 <= DigitValue(r[2 * i + 1]) < 16
      && 16 * DigitValue(r[2 * i]) + DigitValue(r[2 * i + 1]) == hash[i]
  {
    if i < n - 1 { HexSpells(hash, n - 1, i); }
  }

  /** The key is a name for the first eight hash bytes: keys are equal exactly when those bytes are. */
  lemma {:induction false} HexInjective(a: seq<byte>, b: seq<byte>, n: nat)
    requires n <= |a| && n <= |b|
    ensures Hex(a, n) == Hex(b, n) <==> a[..n] == b[..n]
  {
    if n > 0 {
      HexInjective(a, b, n - 1);
      var x, y := Hex(a, n), Hex(b, n);
      assert x[..2 * (n - 1)] == Hex(a, n - 1) && y[..2 * (n - 1)] == Hex(b, n - 1);
      assert a[..n] == a[..n - 1] + [a[n - 1]] && b[..n] == b[..n - 1] + [b[n - 1]];
      DigitsInjective(a[n - 1], b[n - 1]);
      assert x[2 * n - 2] == HexDigit(a[n - 1] / 16) && x[2 * n - 1] == HexDigit(a[n - 1] % 16);
      assert y[2 * n - 2] == HexDigit(b[n - 1] / 16) && y[2 * n - 1] == HexDigit(b[n - 1] % 16);
      if a[..n] == b[..n] {
        assert a[..n][n - 1] == b[..n][n - 1] && a[..n][..n - 1] == b[..n][..n - 1];
      }
    }
  }

  lemma DigitsInjective(x: byte, y: byte)
    ensures HexDigit(x / 16) == HexDigit(y / 16) && HexDigit(x % 16) == HexDigit(y % 16) <==> x == y
  {
  }

  method CalculateCacheKey(hash: seq<byte>) returns (key: seq<byte>)
    requires |hash| == HASH_LEN
    ensures key == CacheKey(hash)
  {
    key := [];
    for i := 0 to KEY_LEN / 2
      invariant key == Hex(hash, i)
    {
      key := key + [HexDigit(hash[i] / 16), HexDigit(hash[i] % 16)];
    }
  }

  // ---- The record ---------------------------------------------------------

  /** What is stored about a payload. */
  datatype Info = Info(uncompressed: nat, platform: byte, arch: byte, libc: byte, config: Option<seq<byte>>)

  function ConfigBytes(config: Option<seq<byte>>): seq<byte> {
    if config.Some? then [1] + config.value else [0]
  }

  /** The record between the marker and the payload. */
  function Record(size: nat, info: Info, hash: seq<byte>): seq<byte>
    requires |hash| == HASH_LEN
  {
    ToLE(size, 8) + ToLE(info.uncompressed, 8) + CacheKey(hash)
    + [info.platform, info.arch, info.libc] + hash + ConfigBytes(info.config)
  }

  function Section(payload: seq<byte>, info: Info, hash: seq<byte>): seq<byte>
    requires |hash| == HASH_LEN
  {
    Marker() + (Record(|payload|, info, hash) + payload)
  }

  predicate SoundInfo(info: Info) {
    info.uncompressed < TWO_64 && (info.config.Some? ==> |info.config.value| == CONFIG_LEN)
  }

  /** Builds the section in a buffer of its final size, field after field. */
  method BuildSectionData(payload: seq<byte>, info: Info, sha: seq<byte> -> seq<byte>) returns (r: Option<array<byte>>)
    requires SoundInfo(info) && |sha(payload)| == HASH_LEN
    ensures r.None? <==> payload == [] || |payload| >= TWO_64 - MARKER_LEN - HEADER_LEN - (|ConfigBytes(info.config)| - 1)
    ensures r.Some? ==> fresh(r.value) && r.value[..] == Section(payload, info, sha(payload))
  {
    if |payload| == 0 { return None; }
    var hash := sha(payload);
    var key := CalculateCacheKey(hash);
    var configSize := if info.config.Some? then CONFIG_LEN else 0;
    if |payload| > TWO_64 - 1 - MARKER_LEN - HEADER_LEN - configSize { return None; }
    var data := new byte[MARKER_LEN + HEADER_LEN + configSize + |payload|];
    var offset := 0;
    StoreAfter(data, offset, Marker());
    offset := offset + MARKER_LEN;
    StoreAfter(data, offset, ToLE(|payload|, 8));
    offset := offset + 8;
    StoreAfter(data, offset, ToLE(info.uncompressed, 8));
    offset := offset + 8;
    StoreAfter(data, offset, key);
    offset := offset + KEY_LEN;
    StoreAfter(data, offset, [info.platform, info.arch, info.libc]);
    offset := offset + PLATFORM_LEN;
    StoreAfter(data, offset, hash);
    offset := offset + HASH_LEN;
    StoreAfter(data, offset, ConfigBytes(info.config));
    offset := offset + |ConfigBytes(info.config)|;
    StoreAfter(data, offset, payload);
    assert data[..offset + |payload|] == data[..];
    SectionFields(payload, info, hash);
    r := Some(data);
  }

  lemma SectionFields(payload: seq<byte>, info: Info, hash: seq<byte>)
    requires |hash| == HASH_LEN
    ensures Section(payload, info, hash)
         == [] + Marker() + ToLE(|payload|, 8) + ToLE(info.uncompressed, 8) + CacheKey(hash)
            + [info.platform, info.arch, info.libc] + hash + ConfigBytes(info.config) + payload
  {
    var a, b, k, p, c := ToLE(|payload|, 8), ToLE(info.uncompressed, 8), CacheKey(hash),
                         [info.platform, info.arch, info.libc], ConfigBytes(info.config);
    hide ToLE, CacheKey, Marker;
    assert [] + Marker() == Marker();
    Assoc(Marker(), a + b + k + p + hash + c, payload);
    Assoc(Marker(), a + b + k + p + hash, c);
    Assoc(Marker(), a + b + k + p, hash);
    Assoc(Marker(), a + b + k, p);
    Assoc(Marker(), a + b, k);
    Assoc(Marker(), a, b);
  }

  // ---- Reading ------------------------------------------------------------

  datatype Metadata = Metadata(compressed: nat, uncompressed: nat, key: seq<byte>,
                               platform: seq<byte>, hash: seq<byte>, dataOffset: nat)

  /** An open file: its bytes and the position of the next read. */
  class Descriptor {
    const data: seq<byte>
    var pos: nat

    constructor (data: seq<byte>, pos: nat)
      ensures this.data == data && this.pos == pos
    {
      this.data := data;
      this.pos := pos;
    }

    /** Reads up to `n` bytes, fewer only at the end of the file. */
    method Read(n: nat) returns (b: seq<byte>)
      modifies this
      ensures b == if old(pos) + n <= |data| then data[old(pos)..old(pos) + n] else if old(pos) < |data| then data[old(pos)..] else []
      ensures pos == old(pos) + |b|
    {
      if pos + n <= |data| {
        b := data[pos..pos + n];
        pos := pos + n;
      } else {
        b := if pos < |data| then data[pos..] else [];
        pos := pos + |b|;
      }
    }

    /** Moves the position; a seek past the end of the file is no error. */
    method Skip(n: nat)
      modifies this
      ensures pos == old(pos) + n
    {
      pos := pos + n;
    }
  }

  /** The flag byte of the record at `pos`. */
  function FlagAt(data: seq<byte>, pos: nat): byte
    requires pos + HEADER_LEN <= |data|
  {
    data[pos + HEADER_LEN - 1]
  }

  function PayloadAt(data: seq<byte>, pos: nat): nat
    requires pos + HEADER_LEN <= |data|
  {
    pos + HEADER_LEN + if FlagAt(data, pos) != 0 then CONFIG_LEN else 0
  }

  /** The record at `pos`, or nothing when the file ends inside its fixed part. */
  function ParseAt(data: seq<byte>, pos: nat): Option<Metadata> {
    if pos + HEADER_LEN > |data| then None
    else Some(Metadata(Field(data, pos, 8), Field(data, pos + 8, 8), data[pos + 16..pos + 32],
                       data[pos + 32..pos + 35], data[pos + 35..pos + 99], PayloadAt(data, pos)))
  }

  method ReadFixedPart(fd: Descriptor) returns (r: Option<(nat, nat, seq<byte>, seq<byte>, seq<byte>, byte)>)
    modifies fd
    ensures r.None? <==> old(fd.pos) + HEADER_LEN > |fd.data|
    ensures r.Some? ==>
      && fd.pos == old(fd.pos) + HEADER_LEN
      && var m := ParseAt(fd.data, old(fd.pos)).value;
         r.value == (m.compressed, m.uncompressed, m.key, m.platform, m.hash, FlagAt(fd.data, old(fd.pos)))
  {
    hide Field;
    ghost var start := fd.pos;
    var a := fd.Read(8);
    if |a| != 8 { return None; }
    var b := fd.Read(8);
    if |b| != 8 { return None; }
    var key := fd.Read(KEY_LEN);
    if |key| != KEY_LEN { return None; }
    var platform := fd.Read(PLATFORM_LEN);
    if |platform| != PLATFORM_LEN { return None; }
    var hash := fd.Read(HASH_LEN);
    if |hash| != HASH_LEN { return None; }
    var flag := fd.Read(1);
    if |flag| != 1 { return None; }
    SameField(a, 0, fd.data, start, 8);
    SameField(b, 0, fd.data, start + 8, 8);
    r := Some((Field(a, 0, 8), Field(b, 0, 8), key, platform, hash, flag[0]));
  }

  /** The reader that skips the configuration. */
  method ReadMetadataAfterMarker(fd: Descriptor) returns (r: Option<Metadata>)
    modifies fd
    ensures r == ParseAt(fd.data, old(fd.pos))
    ensures r.Some? ==> fd.pos == r.value.dataOffset
  {
    hide Field;
    var m := ReadFixedPart(fd);
    if m.None? { return None; }
    var (c, u, k, p, h, flag) := m.value;
    if flag != 0 { fd.Skip(CONFIG_LEN); }
    r := Some(Metadata(c, u, k, p, h, fd.pos));
  }

  /** The reader that keeps the configuration. */
  method ReadMetadataWithConfig(fd: Descriptor) returns (r: Option<Metadata>, config: Option<seq<byte>>)
    modifies fd
    ensures r == ParseWithConfig(fd.data, old(fd.pos)).0 && config == ParseWithConfig(fd.data, old(fd.pos)).1
    ensures r.Some? ==> fd.pos == r.value.dataOffset
  {
    hide Field;
    r, config := None, None;
    var m := ReadFixedPart(fd);
    if m.None? { return; }
    var (c, u, k, p, h, flag) := m.value;
    if flag != 0 {
      var b := fd.Read(CONFIG_LEN);
      if |b| != CONFIG_LEN { return; }
      config := Some(b);
    }
    r := Some(Metadata(c, u, k, p, h, fd.pos));
  }

  function ParseWithConfig(data: seq<byte>, pos: nat): (Option<Metadata>, Option<seq<byte>>) {
    if pos + HEADER_LEN > |data| then (None, None)
    else if FlagAt(data, pos) == 0 then (ParseAt(data, pos), None)
    else if pos + HEADER_LEN + CONFIG_LEN > |data| then (None, None)
    else (ParseAt(data, pos), Some(data[pos + HEADER_LEN..pos + HEADER_LEN + CONFIG_LEN]))
  }

  /** The two readers agree exactly on files that do not end before or inside a declared configuration. */
  lemma ReadersAgree(data: seq<byte>, pos: nat)
    ensures ParseAt(data, pos) == ParseWithConfig(data, pos).0
       <==> (pos + HEADER_LEN <= |data| && FlagAt(data, pos) != 0 ==> PayloadAt(data, pos) <= |data|)
  {
  }

  /** A file that ends behind a flag that promises a configuration: one reader takes it, the other does not. */
  lemma ReadersDisagree()
    ensures var data: seq<byte> := seq(HEADER_LEN - 1, _ => 0) + [1];
      ParseAt(data, 0).Some? && ParseWithConfig(data, 0).0.None?
  {
  }

  lemma Parts(s: seq<byte>, m: seq<byte>, a: seq<byte>, b: seq<byte>, k: seq<byte>, p: seq<byte>, h: seq<byte>, c: seq<byte>, d: seq<byte>)
    requires |m| == 32 && |a| == |b| == 8 && |k| == 16 && |p| == 3 && |h| == 64
    requires s == [] + m + a + b + k + p + h + c + d
    ensures |s| == 131 + |c| + |d|
    ensures s[0..32] == m && s[32..40] == a && s[40..48] == b && s[48..64] == k && s[64..67] == p
    ensures s[67..131] == h && s[131..131 + |c|] == c && s[131 + |c|..131 + |c| + |d|] == d
  {
  }

  lemma SubSlice(data: seq<byte>, at: nat, s: seq<byte>, i: nat, j: nat)
    requires at + |s| <= |data| && data[at..at + |s|] == s && i <= j <= |s|
    ensures data[at + i..at + j] == s[i..j]
  {
    SliceSlice(data, at, at + |s|, i, j);
  }

  /** The parts of a section stand one behind the other. */
  ghost predicate Laid(data: seq<byte>, at: nat, m: seq<byte>, a: seq<byte>, b: seq<byte>, k: seq<byte>,
                       p: seq<byte>, h: seq<byte>, c: seq<byte>, d: seq<byte>) {
    && at + 131 + |c| + |d| <= |data| && data[at..at + 32] == m && data[at + 32..at + 40] == a && data[at + 40..at + 48] == b
    && data[at + 48..at + 64] == k && data[at + 64..at + 67] == p && data[at + 67..at + 131] == h
    && data[at + 131..at + 131 + |c|] == c && data[at + 131 + |c|..at + 131 + |c| + |d|] == d
  }

  lemma PartsIn(data: seq<byte>, at: nat, s: seq<byte>, m: seq<byte>, a: seq<byte>, b: seq<byte>, k: seq<byte>,
                p: seq<byte>, h: seq<byte>, c: seq<byte>, d: seq<byte>)
    requires |m| == 32 && |a| == |b| == 8 && |k| == 16 && |p| == 3 && |h| == 64
    requires s == [] + m + a + b + k + p + h + c + d
    requires at + |s| <= |data| && data[at..at + |s|] == s
    ensures Laid(data, at, m, a, b, k, p, h, c, d)
  {
    Parts(s, m, a, b, k, p, h, c, d);
    SubSlice(data, at, s, 0, 32);
    SubSlice(data, at, s, 32, 40);
    SubSlice(data, at, s, 40, 48);
    SubSlice(data, at, s, 48, 64);
    SubSlice(data, at, s, 64, 67);
    SubSlice(data, at, s, 67, 131);
    SubSlice(data, at, s, 131, 131 + |c|);
    SubSlice(data, at, s, 131 + |c|, 131 + |c| + |d|);
  }

  /** A built section stands in the file. */
  predicate SectionAt(data: seq<byte>, at: nat, payload: seq<byte>, info: Info, hash: seq<byte>)
    requires |hash| == HASH_LEN && SoundInfo(info)
  {
    var s := Section(payload, info, hash);
    at + |s| <= |data| && data[at..at + |s|] == s
  }

  lemma SectionSlices(data: seq<byte>, at: nat, payload: seq<byte>, info: Info, hash: seq<byte>)
    requires |hash| == HASH_LEN && SoundInfo(info) && SectionAt(data, at, payload, info, hash)
    ensures Laid(data, at, Marker(), ToLE(|payload|, 8), ToLE(info.uncompressed, 8), CacheKey(hash),
                 [info.platform, info.arch, info.libc], hash, ConfigBytes(info.config), payload)
  {
    hide Section, ToLE, CacheKey, Marker, ConfigBytes, Laid;
    SectionFields(payload, info, hash);
    PartsIn(data, at, Section(payload, info, hash), Marker(), ToLE(|payload|, 8), ToLE(info.uncompressed, 8),
            CacheKey(hash), [info.platform, info.arch, info.libc], hash, ConfigBytes(info.config), payload);
  }

  /** Both readers give back what the builder stored, wherever the section stands. */
  lemma SectionRoundTrip(data: seq<byte>, at: nat, payload: seq<byte>, info: Info, hash: seq<byte>)
    requires |hash| == HASH_LEN && SoundInfo(info) && |payload| < TWO_64
    requires SectionAt(data, at, payload, info, hash)
    ensures at + MARKER_LEN <= |data| && data[at..at + MARKER_LEN] == Marker()
    ensures var r := ParseAt(data, at + MARKER_LEN);
      && r.Some?
      && r.value.compressed == |payload| && r.value.uncompressed == info.uncompressed
      && r.value.key == CacheKey(hash) && r.value.platform == [info.platform, info.arch, info.libc] && r.value.hash == hash
      && r.value.dataOffset + |payload| <= |data|
      && data[r.value.dataOffset..r.value.dataOffset + |payload|] == payload
      && ParseWithConfig(data, at + MARKER_LEN) == (r, info.config)
  {
    hide Field, ToLE, CacheKey, Marker, SectionAt, Section;
    Widths();
    SectionSlices(data, at, payload, info, hash);
    FieldIs(data, at + 32, |payload|, 8);
    FieldIs(data, at + 40, info.uncompressed, 8);
    var c := ConfigBytes(info.config);
    assert data[at + 131] == data[at + 131..at + 131 + |c|][0] == c[0];
    if info.config.Some? {
      assert data[at + 132..at + 132 + CONFIG_LEN] == data[at + 131..at + 131 + |c|][1..];
    }
  }

  /** The places the format gives each part, and the value a reader of the bytes takes there. */
  lemma SectionBytes(payload: seq<byte>, info: Info, hash: seq<byte>)
    requires |hash| == HASH_LEN && SoundInfo(info) && |payload| < TWO_64
    ensures var s, c := Section(payload, info, hash), if info.config.Some? then 1192 else 0;
      && |s| == 132 + c + |payload|
      && s[..32] == Marker() && Field(s, 32, 8) == |payload| && Field(s, 40, 8) == info.uncompressed
      && (forall i :: 0 <= i < 8 ==> 16 * DigitValue(s[48 + 2 * i]) + DigitValue(s[49 + 2 * i]) == hash[i])
      && s[64] == info.platform && s[65] == info.arch && s[66] == info.libc && s[67..131] == hash
      && s[131] == (if info.config.Some? then 1 else 0) && (info.config.Some? ==> s[132..1324] == info.config.value)
      && s[132 + c..] == payload
  {
    var s := Section(payload, info, hash);
    assert SectionAt(s, 0, payload, info, hash) by { assert s[0..0 + |s|] == s; }
    SectionSlices(s, 0, payload, info, hash);
    SectionFields(payload, info, hash);
    hide Field, ToLE, Marker, SectionAt, Section, Hex;
    Widths();
    FieldIs(s, 32, |payload|, 8);
    FieldIs(s, 40, info.uncompressed, 8);
    KeySpelled(s, hash);
    var p, c := s[64..67], s[131..131 + |ConfigBytes(info.config)|];
    assert p[0] == s[64] && p[1] == s[65] && p[2] == s[66] && c[0] == s[131];
    assert s[..32] == s[0..32];
    if info.config.Some? { assert s[132..1324] == c[1..]; }
  }

  lemma KeySpelled(s: seq<byte>, hash: seq<byte>)
    requires |hash| == HASH_LEN && |s| >= 64 && s[48..64] == CacheKey(hash)
    ensures forall i :: 0 <= i < 8 ==> 16 * DigitValue(s[48 + 2 * i]) + DigitValue(s[49 + 2 * i]) == hash[i]
  {
    hide Hex, DigitValue;
    forall i | 0 <= i < 8 ensures 16 * DigitValue(s[48 + 2 * i]) + DigitValue(s[49 + 2 * i]) == hash[i] {
      HexSpells(hash, 8, i);
      assert s[48..64][2 * i] == s[48 + 2 * i] && s[48..64][2 * i + 1] == s[49 + 2 * i];
    }
  }

  /** The three parts the marker is put together from spell it. */
  lemma MarkerSpelled()
    ensures forall i :: 0 <= i < 32 ==> Marker()[i] == "__SMOL_PRESSED_DATA_MAGIC_MARKER"[i] as int
  {
  }

  // ---- Validation and integrity -------------------------------------------

  /** What the loader demands of a record before it decompresses. */
  predicate Valid(m: Metadata, max: nat) {
    && m.compressed != 0 && m.uncompressed != 0
    && (max > 0 ==> m.compressed <= max && m.uncompressed <= max)
    && |m.key| == KEY_LEN && (forall i :: 0 <= i < KEY_LEN ==> IsHex(m.key[i]))
    && |m.platform| == PLATFORM_LEN && m.platform[0] <= 2 && m.platform[1] <= 3
    && (m.platform[2] == 0 || m.platform[2] == 1 || m.platform[2] == 255)
  }

  method ValidateMetadata(m: Metadata, max: nat) returns (ok: bool)
    requires |m.key| == KEY_LEN && |m.platform| == PLATFORM_LEN
    ensures ok <==> Valid(m, max)
  {
    if m.compressed == 0 || m.uncompressed == 0 { return false; }
    if max > 0 {
      if m.compressed > max { return false; }
      if m.uncompressed > max { return false; }
    }
    for i := 0 to KEY_LEN
      invariant forall j :: 0 <= j < i ==> IsHex(m.key[j])
    {
      if !IsHex(m.key[i]) { return false; }
    }
    if m.platform[0] > 2 { return false; }
    if m.platform[1] > 3 { return false; }
    ok := m.platform[2] == 0 || m.platform[2] == 1 || m.platform[2] == 255;
  }

  /** What the loader demands of the data it decompresses. */
  predicate Intact(data: seq<byte>, expected: seq<byte>, sha: seq<byte> -> seq<byte>) {
    data != [] && sha(data) == expected
  }

  method VerifyIntegrity(data: seq<byte>, expected: seq<byte>, sha: seq<byte> -> seq<byte>) returns (ok: bool)
    requires |sha(data)| == HASH_LEN == |expected|
    ensures ok <==> Intact(data, expected, sha)
  {
    if |data| == 0 { return false; }
    ok := sha(data) == expected;
  }

  /** Checked against the record of a built section, exactly the data with the payload's hash is accepted, and the stored payload is. */
  lemma IntegrityOfBuilt(data: seq<byte>, at: nat, payload: seq<byte>, info: Info, sha: seq<byte> -> seq<byte>, found: seq<byte>)
    requires |sha(payload)| == HASH_LEN && SoundInfo(info) && 0 < |payload| < TWO_64
    requires SectionAt(data, at, payload, info, sha(payload))
    ensures ParseAt(data, at + MARKER_LEN).Some?
    ensures var r := ParseAt(data, at + MARKER_LEN).value;
      && (Intact(found, r.hash, sha) <==> found != [] && sha(found) == sha(payload))
      && r.dataOffset + r.compressed <= |data| && Intact(data[r.dataOffset..r.dataOffset + r.compressed], r.hash, sha)
  {
    hide SectionAt, Section, Field, Hex, ParseAt;
    SectionRoundTrip(data, at, payload, info, sha(payload));
  }

  /** A built section passes validation exactly when its sizes and platform bytes are in range. */
  lemma BuiltIsValid(data: seq<byte>, at: nat, payload: seq<byte>, info: Info, hash: seq<byte>, max: nat)
    requires |hash| == HASH_LEN && SoundInfo(info) && 0 < |payload| < TWO_64
    requires SectionAt(data, at, payload, info, hash)
    ensures ParseAt(data, at + MARKER_LEN).Some?
    ensures Valid(ParseAt(data, at + MARKER_LEN).value, max)
       <==> info.uncompressed != 0 && (max > 0 ==> |payload| <= max && info.uncompressed <= max)
            && info.platform <= 2 && info.arch <= 3 && info.libc in {0, 1, 255}
  {
    hide SectionAt, Section, Field, Hex;
    SectionRoundTrip(data, at, payload, info, hash);
    forall i | 0 <= i < KEY_LEN
      ensures IsHex(CacheKey(hash)[i])
    {
      HexIsHex(hash, KEY_LEN / 2, i);
    }
  }
}
