/**
  The UTF-8 primitives of the text interface: decode one code point and advance,
  encode one, and measure one without decoding. The functions use ranges, rests and
  sums; `DecodeWord`, `EncodeWord` and `WordLen` are the same with the masks, shifts and
  alternatives of the code, and proved equal.
 */
module Utf8 {
  import opened Bits
  import opened Bytes

  predicate Tail(b: byte) {
    0x80 <= b < 0xC0
  }

  /** The payload of a continuing byte. */
  function Six(b: byte): (r: nat)
    ensures r < 64 && r == b % 64
  {
    b % 64
  }

  /** The payload of a lead byte: five, four or three bits. */
  function Lead(b: byte): (r: nat)
    requires 0xC0 <= b < 0xF8
    ensures r == if b < 0xE0 then b % 32 else if b < 0xF0 then b % 16 else b % 8
  {
    if b < 0xE0 then b - 0xC0 else if b < 0xF0 then b - 0xE0 else b - 0xF0
  }

  const REPLACEMENT: nat := 0xFFFD

  datatype Step = Step(cp: nat, len: nat)

  /** The code point at the front of the text and the bytes it takes. */
  function Decode(s: seq<byte>): Step {
    if s == [] then Step(0, 0)
    else
      var b := s[0];
      if b < 0x80 then Step(b, 1)
      else if 0xC0 <= b < 0xE0 && |s| > 1 && Tail(s[1]) then Step(Lead(b) * 64 + Six(s[1]), 2)
      else if 0xE0 <= b < 0xF0 && |s| > 2 && Tail(s[1]) && Tail(s[2]) then
        Step(Lead(b) * 4096 + Six(s[1]) * 64 + Six(s[2]), 3)
      else if 0xF0 <= b < 0xF8 && |s| > 3 && Tail(s[1]) && Tail(s[2]) && Tail(s[3]) then
        Step(Lead(b) * 262144 + Six(s[1]) * 4096 + Six(s[2]) * 64 + Six(s[3]), 4)
      else Step(REPLACEMENT, 1)
  }

  /** The bytes of a code point; a value above 21 bits keeps only some of them. */
  function Encode(cp: nat): (r: seq<byte>)
    ensures 1 <= |r| <= 4
  {
    if cp < 0x80 then [cp]
    else if cp < 0x800 then [0xC0 + cp / 64, 0x80 + cp % 64]
    else if cp < 0x10000 then [0xE0 + cp / 4096, 0x80 + cp / 64 % 64, 0x80 + cp % 64]
    else [0xF0 + cp / 262144 % 16, 0x80 + cp / 4096 % 64, 0x80 + cp / 64 % 64, 0x80 + cp % 64]
  }

  function ByteLen(s: seq<byte>): nat {
    if s == [] then 0
    else if s[0] < 0x80 then 1
    else if 0xC0 <= s[0] < 0xE0 then 2
    else if 0xE0 <= s[0] < 0xF0 then 3
    else if 0xF0 <= s[0] < 0xF8 then 4
    else 1
  }

  // ---- With the operators of the code -------------------------------------

  function DecodeWord(s: seq<byte>): Step {
    if s == [] then Step(0, 0)
    else if And(s[0], 0x80) == 0 then Step(s[0], 1)
    else if And(s[0], 0xE0) == 0xC0 && |s| > 1 && And(s[1], 0xC0) == 0x80 then
      Step(Or(Shl(And(s[0], 0x1F), 6), And(s[1], 0x3F)), 2)
    else if And(s[0], 0xF0) == 0xE0 && |s| > 2 && And(s[1], 0xC0) == 0x80 && And(s[2], 0xC0) == 0x80 then
      Step(Or(Or(Shl(And(s[0], 0x0F), 12), Shl(And(s[1], 0x3F), 6)), And(s[2], 0x3F)), 3)
    else if And(s[0], 0xF8) == 0xF0 && |s| > 3 && And(s[1], 0xC0) == 0x80 && And(s[2], 0xC0) == 0x80 && And(s[3], 0xC0) == 0x80 then
      Step(Or(Or(Or(Shl(And(s[0], 0x07), 18), Shl(And(s[1], 0x3F), 12)), Shl(And(s[2], 0x3F), 6)), And(s[3], 0x3F)), 4)
    else Step(REPLACEMENT, 1)
  }

  /** Stored through `char`, so cut to eight bits. */
  function EncodeWord(cp: nat): seq<nat> {
    if cp < 0x80 then [cp]
    else if cp < 0x800 then [Or(0xC0, Shr(cp, 6)), Or(0x80, And(cp, 0x3F))]
    else if cp < 0x10000 then [Or(0xE0, Shr(cp, 12)), Or(0x80, And(Shr(cp, 6), 0x3F)), Or(0x80, And(cp, 0x3F))]
    else [And(Or(0xF0, Shr(cp, 18)), 0xFF), Or(0x80, And(Shr(cp, 12), 0x3F)), Or(0x80, And(Shr(cp, 6), 0x3F)), Or(0x80, And(cp, 0x3F))]
  }

  function WordLen(s: seq<byte>): nat {
    if s == [] then 0
    else if And(s[0], 0x80) == 0 then 1
    else if And(s[0], 0xE0) == 0xC0 then 2
    else if And(s[0], 0xF0) == 0xE0 then 3
    else if And(s[0], 0xF8) == 0xF0 then 4
    else 1
  }

  /** The mask of a byte's bits above the lowest `k`. */
  lemma TopMask(b: byte, k: nat, mask: nat)
    requires k <= 8 && mask == 256 - Pow2(k)
    ensures And(b, mask) == b - Low(b, k)
  {
    hide And, Low;
    Powers();
    HighMask(b, k, 8);
  }

  lemma ByteTests(b: byte)
    ensures (And(b, 0x80) == 0 <==> b < 0x80) && (And(b, 0xC0) == 0x80 <==> Tail(b))
    ensures (And(b, 0xE0) == 0xC0 <==> 0xC0 <= b < 0xE0) && (And(b, 0xF0) == 0xE0 <==> 0xE0 <= b < 0xF0)
    ensures And(b, 0xF8) == 0xF0 <==> 0xF0 <= b < 0xF8
  {
    hide And, Low, Pow2;
    Powers();
    TopMask(b, 7, 0x80);
    TopMask(b, 6, 0xC0);
    TopMask(b, 5, 0xE0);
    TopMask(b, 4, 0xF0);
    TopMask(b, 3, 0xF8);
    LeadRests(b);
    ByteRests(b);
    SevenBits(b);
  }

  lemma SevenBits(b: byte)
    ensures Low(b, 7) == b % 128
  {
    hide Shl, Shr, Low;
    Powers();
    Split(b, 7);
    ShlSum(Shr(b, 7), 4, 3);
    Shifts(Shr(b, 7));
    Shifts(16 * Shr(b, 7));
  }

  lemma ByteFields(b: nat)
    ensures And(b, 0x3F) == b % 64 && And(b, 0x1F) == b % 32 && And(b, 0x0F) == b % 16 && And(b, 0x07) == b % 8 && And(b, 0xFF) == b % 256
  {
    hide And, Low, Pow2;
    Powers();
    LowMask(b, 6);
    LowMask(b, 5);
    LowMask(b, 4);
    LowMask(b, 3);
    LowMask(b, 8);
    LeadRests(b);
    ByteRests(b);
  }

  /** Six bits below others are added. */
  lemma OrSix(x: nat, y: nat)
    requires y < 64
    ensures Shl(x, 6) == x * 64 && Or(x * 64, y) == x * 64 + y
  {
    hide Or, Shl, Pow2;
    Powers();
    Shifts(x);
    OrAdds(x, y, 6);
  }

  lemma OrTwelve(x: nat, y: nat)
    requires y < 64
    ensures Shl(x, 12) == x * 4096 && Or(x * 4096, y * 64) == (x * 64 + y) * 64
  {
    hide Or, Shl, Pow2;
    Powers();
    Shifts(x);
    OrAdds(x, y * 64, 12);
  }

  lemma OrEighteen(x: nat, y: nat)
    requires y < 64
    ensures Shl(x, 18) == x * 262144 && Or(x * 262144, y * 4096) == (x * 64 + y) * 4096
  {
    hide Or, Shl, Pow2;
    Powers();
    Shifts(x);
    OrAdds(x, y * 4096, 18);
  }

  /** Fields of six bits below one another are added. */
  lemma OrFields(a: nat, b: nat, c: nat, d: nat)
    requires b < 64 && c < 64 && d < 64
    ensures Or(Or(Or(Shl(a, 18), Shl(b, 12)), Shl(c, 6)), d) == a * 262144 + b * 4096 + c * 64 + d
    ensures Or(Or(Shl(b, 12), Shl(c, 6)), d) == b * 4096 + c * 64 + d
    ensures Or(Shl(c, 6), d) == c * 64 + d
  {
    hide Or, Shl;
    OrSix(c, d);
    OrTwelve(b, c);
    OrSix(b * 64 + c, d);
    OrEighteen(a, b);
    OrTwelve(a * 64 + b, c);
    OrSix((a * 64 + b) * 64 + c, d);
  }

  /** Decoding with masks, shifts and alternatives is decoding. */
  lemma DecodeWordIs(s: seq<byte>)
    ensures DecodeWord(s) == Decode(s) && WordLen(s) == ByteLen(s)
  {
    hide And, Or, Shl;
    if s != [] {
      ByteTests(s[0]);
      ByteFields(s[0]);
      if |s| > 1 { ByteTests(s[1]); ByteFields(s[1]); }
      if |s| > 2 { ByteTests(s[2]); ByteFields(s[2]); }
      if |s| > 3 { ByteTests(s[3]); ByteFields(s[3]); }
      if |s| > 1 { OrFields(0, 0, s[0] % 32, s[1] % 64); }
      if |s| > 2 { OrFields(0, s[0] % 16, s[1] % 64, s[2] % 64); }
      if |s| > 3 { OrFields(s[0] % 8, s[1] % 64, s[2] % 64, s[3] % 64); }
    }
  }

  /** A lead or continuing byte put together. */
  lemma OrByte(x: nat)
    ensures x < 64 ==> Or(0x80, x) == 0x80 + x
    ensures x < 32 ==> Or(0xC0, x) == 0xC0 + x
    ensures x < 16 ==> Or(0xE0, x) == 0xE0 + x
  {
    hide Or, Shl, Pow2;
    Powers();
    Shifts(2);
    Shifts(6);
    Shifts(14);
    if x < 64 { OrAdds(2, x, 6); }
    if x < 32 { OrAdds(6, x, 5); }
    if x < 16 { OrAdds(14, x, 4); }
  }

  /** The lead byte of four, cut to eight bits: what does not fit is lost. */
  lemma OrLead(x: nat)
    ensures Or(0xF0, x) % 256 == 0xF0 + x % 16
  {
    hide Or, Low;
    LowOfOr(0xF0, x, 8);
    LowOfTop();
    ByteRests(x);
    ByteRests(Or(0xF0, x));
    OrTop(x % 256);
    SixteenOf256(x);
  }

  lemma LowOfTop()
    ensures Low(0xF0, 8) == 0xF0
  {
    hide Low;
    ByteRests(0xF0);
  }

  lemma OrTop(x: nat)
    requires x < 256
    ensures Or(0xF0, x) == 0xF0 + x % 16
  {
    hide Or, Low, Shl, Pow2;
    Powers();
    Shifts(15);
    OrAbsorbs(x, 4, 4);
    LeadRests(x);
  }

  lemma SixteenOf256(x: nat)
    ensures x % 256 % 16 == x % 16
  {
    hide Low;
    LowOfLow(x, 4, 8);
    ByteRests(x);
    LeadRests(x);
    LeadRests(x % 256);
  }

  /** Encoding with shifts and alternatives is encoding. */
  lemma EncodeWordIs(cp: nat)
    ensures EncodeWord(cp) == Encode(cp)
  {
    hide And, Or, Shr, Shl;
    Quotients(cp);
    ByteFields(cp);
    ByteFields(cp / 64);
    ByteFields(cp / 4096);
    OrByte(cp % 64);
    OrByte(cp / 64 % 64);
    OrByte(cp / 4096 % 64);
    OrByte(cp / 64);
    OrByte(cp / 4096);
    OrLead(cp / 262144);
    ByteFields(Or(0xF0, cp / 262144));
  }

  // ---- The algorithms -----------------------------------------------------

  /** Decodes at `p` and advances it. */
  method DecodeUtf8(text: seq<byte>, p: nat) returns (cp: nat, next: nat)
    requires p <= |text|
    ensures cp == Decode(text[p..]).cp && next == p + Decode(text[p..]).len
  {
    var end := |text|;
    next := p;
    if p >= end { return 0, next; }
    ghost var s := text[p..];
    var b0 := text[p];
    if b0 < 0x80 { return b0, next + 1; }
    if 0xC0 <= b0 < 0xE0 && p + 1 < end {
      var b1 := text[p + 1];
      assert s[1] == b1;
      if Tail(b1) { return Lead(b0) * 64 + Six(b1), next + 2; }
    }
    if 0xE0 <= b0 < 0xF0 && p + 2 < end {
      var b1, b2 := text[p + 1], text[p + 2];
      assert s[1] == b1 && s[2] == b2;
      if Tail(b1) && Tail(b2) { return Lead(b0) * 4096 + Six(b1) * 64 + Six(b2), next + 3; }
    }
    if 0xF0 <= b0 < 0xF8 && p + 3 < end {
      var b1, b2, b3 := text[p + 1], text[p + 2], text[p + 3];
      assert s[1] == b1 && s[2] == b2 && s[3] == b3;
      if Tail(b1) && Tail(b2) && Tail(b3) {
        return Lead(b0) * 262144 + Six(b1) * 4096 + Six(b2) * 64 + Six(b3), next + 4;
      }
    }
    cp, next := REPLACEMENT, next + 1;
  }

  /** Encodes into the front of a buffer with room for four bytes. */
  method EncodeUtf8(cp: nat, dst: array<byte>) returns (n: nat)
    requires dst.Length >= 4
    modifies dst
    ensures n == |Encode(cp)| && dst[..n] == Encode(cp) && dst[n..] == old(dst[n..])
  {
    if cp < 0x80 {
      dst[0] := cp;
      return 1;
    }
    if cp < 0x800 {
      dst[0], dst[1] := 0xC0 + cp / 64, 0x80 + cp % 64;
      return 2;
    }
    if cp < 0x10000 {
      dst[0], dst[1], dst[2] := 0xE0 + cp / 4096, 0x80 + cp / 64 % 64, 0x80 + cp % 64;
      return 3;
    }
    dst[0], dst[1] := 0xF0 + cp / 262144 % 16, 0x80 + cp / 4096 % 64;
    dst[2], dst[3] := 0x80 + cp / 64 % 64, 0x80 + cp % 64;
    n := 4;
  }

  /** The callers' loop over a text. */
  method DecodeText(text: seq<byte>) returns (cps: seq<nat>)
    ensures cps == DecodeAll(text)
  {
    var p := 0;
    cps := [];
    assert text[0..] == text;
    while p < |text|
      invariant p <= |text| && cps + DecodeAll(text[p..]) == DecodeAll(text)
    {
      ghost var s := text[p..];
      DecodeAdvances(s);
      var cp, next := DecodeUtf8(text, p);
      assert s[Decode(s).len..] == text[next..];
      Assoc(cps, [cp], DecodeAll(text[next..]));
      cps, p := cps + [cp], next;
    }
  }

  // ---- One code point -----------------------------------------------------

  /** A step advances by one to four bytes, never past the end, and by one where it replaces. */
  lemma DecodeAdvances(s: seq<byte>)
    requires s != []
    ensures 1 <= Decode(s).len <= 4 && Decode(s).len <= |s|
    ensures Decode(s).cp < 0x200000
    ensures Decode(s).len == 1 ==> Decode(s).cp == if s[0] < 0x80 then s[0] else REPLACEMENT
  {
  }

  lemma QuotientOfQuotient(x: nat)
    ensures x / 64 / 64 == x / 4096
  {
    assert x == 4096 * (x / 64 / 64) + (64 * (x / 64 % 64) + x % 64);
  }

  lemma QuotientByThree(x: nat)
    ensures x / 4096 / 64 == x / 262144
  {
    assert x == 262144 * (x / 4096 / 64) + (4096 * (x / 4096 % 64) + x % 4096);
  }

  lemma Divisions(cp: nat)
    ensures cp == cp / 64 * 64 + cp % 64 && cp == cp / 4096 * 4096 + cp / 64 % 64 * 64 + cp % 64
    ensures cp == cp / 262144 * 262144 + cp / 4096 % 64 * 4096 + cp / 64 % 64 * 64 + cp % 64
  {
    QuotientOfQuotient(cp);
    QuotientByThree(cp);
    var x, y := cp / 64, cp / 4096;
    assert x == y * 64 + x % 64;
    assert y == y / 64 * 64 + y % 64;
  }

  lemma DecodeShort(cp: nat, s: seq<byte>)
    requires cp < 0x800 && |Encode(cp)| <= |s| && forall i :: 0 <= i < |Encode(cp)| ==> s[i] == Encode(cp)[i]
    ensures Decode(s) == Step(cp, |Encode(cp)|) && ByteLen(s) == |Encode(cp)|
  {
    Divisions(cp);
  }

  lemma DecodeThree(cp: nat, s: seq<byte>)
    requires 0x800 <= cp < 0x10000 && 3 <= |s| && forall i :: 0 <= i < 3 ==> s[i] == Encode(cp)[i]
    ensures Decode(s) == Step(cp, 3) && ByteLen(s) == 3
  {
    Divisions(cp);
    assert s[0] == 0xE0 + cp / 4096 && s[1] == 0x80 + cp / 64 % 64 && s[2] == 0x80 + cp % 64;
    assert Lead(s[0]) == cp / 4096 && Six(s[1]) == cp / 64 % 64 && Six(s[2]) == cp % 64;
  }

  lemma DecodeFour(cp: nat, s: seq<byte>)
    requires 0x10000 <= cp < 0x200000 && 4 <= |s| && forall i :: 0 <= i < 4 ==> s[i] == Encode(cp)[i]
    ensures Decode(s) == Step(cp, 4) && ByteLen(s) == 4
  {
    Divisions(cp);
    assert cp / 262144 < 8;
    assert s[0] == 0xF0 + cp / 262144 && s[1] == 0x80 + cp / 4096 % 64;
    assert s[2] == 0x80 + cp / 64 % 64 && s[3] == 0x80 + cp % 64;
    assert Lead(s[0]) == cp / 262144 && Six(s[1]) == cp / 4096 % 64 && Six(s[2]) == cp / 64 % 64 && Six(s[3]) == cp % 64;
  }

  /** Decoding an encoding gives the code point back, whatever follows. */
  lemma DecodeEncoding(cp: nat, rest: seq<byte>)
    requires cp < 0x200000
    ensures Decode(Encode(cp) + rest) == Step(cp, |Encode(cp)|)
    ensures ByteLen(Encode(cp) + rest) == |Encode(cp)|
  {
    hide Decode, ByteLen;
    var s := Encode(cp) + rest;
    if cp < 0x800 {
      DecodeShort(cp, s);
    } else if cp < 0x10000 {
      DecodeThree(cp, s);
    } else {
      DecodeFour(cp, s);
    }
  }

  /** At 21 bits the encoding stops being decodable: the top bits are lost. */
  lemma DecodeEncodingExactly(cp: nat)
    ensures Decode(Encode(cp)).cp == cp <==> cp < 0x200000
  {
    assert Encode(cp) + [] == Encode(cp);
    if cp < 0x200000 {
      DecodeEncoding(cp, []);
    } else {
      DecodeAdvances(Encode(cp));
    }
  }

  /** The lead byte's promise is kept: that many bytes, all but the first continuing. */
  predicate Complete(s: seq<byte>) {
    ByteLen(s) <= |s| && forall i :: 1 <= i < ByteLen(s) ==> Tail(s[i])
  }

  /** The measured length is the decoded one exactly for complete sequences and stray bytes. */
  lemma ByteLenExactly(s: seq<byte>)
    ensures ByteLen(s) == Decode(s).len <==> Complete(s)
  {
    if ByteLen(s) >= 2 && |s| >= 2 && !Tail(s[1]) { assert !Complete(s); }
    if ByteLen(s) >= 3 && |s| >= 3 && !Tail(s[2]) { assert !Complete(s); }
    if ByteLen(s) >= 4 && |s| >= 4 && !Tail(s[3]) { assert !Complete(s); }
  }

  /** A lead byte of two in front of a letter: measured as two bytes, decoded as one. */
  lemma LengthBelieved()
    ensures ByteLen([0xC3, 0x41]) == 2 && Decode([0xC3, 0x41]) == Step(REPLACEMENT, 1)
  {
  }

  /** No shorter encoding of the code point, and no replacement. */
  predicate Shortest(s: seq<byte>) {
    var d := Decode(s);
    (d.len == 1 && d.cp < 0x80) || (d.len == 2 && d.cp >= 0x80) || (d.len == 3 && d.cp >= 0x800) || (d.len == 4 && d.cp >= 0x10000)
  }

  lemma EncodeDecodedTwo(s: seq<byte>)
    requires Decode(s).len == 2
    ensures |s| >= 2 && if Decode(s).cp >= 0x80 then Encode(Decode(s).cp) == s[..2] else Encode(Decode(s).cp)[0] < 0x80 < s[0]
  {
    Fields(Decode(s).cp, 0, 0, Lead(s[0]), Six(s[1]));
  }

  lemma EncodeDecodedThree(s: seq<byte>)
    requires Decode(s).len == 3
    ensures |s| >= 3 && if Decode(s).cp >= 0x800 then Encode(Decode(s).cp) == s[..3] else Encode(Decode(s).cp)[0] < 0xE0 <= s[0]
  {
    Fields(Decode(s).cp, 0, Lead(s[0]), Six(s[1]), Six(s[2]));
  }

  lemma EncodeDecodedFour(s: seq<byte>)
    requires Decode(s).len == 4
    ensures |s| >= 4 && if Decode(s).cp >= 0x10000 then Encode(Decode(s).cp) == s[..4] else Encode(Decode(s).cp)[0] < 0xF0 <= s[0]
  {
    hide Encode, Lead, Six;
    FourBytes(Lead(s[0]), Six(s[1]), Six(s[2]), Six(s[3]));
    Parts(s[0]);
    Parts(s[1]);
    Parts(s[2]);
    Parts(s[3]);
  }

  lemma FourBytes(a: nat, b: nat, c: nat, d: nat)
    requires a < 8 && b < 64 && c < 64 && d < 64
    ensures var cp := a * 262144 + b * 4096 + c * 64 + d;
      if cp >= 0x10000 then Encode(cp) == [0xF0 + a, 0x80 + b, 0x80 + c, 0x80 + d] else Encode(cp)[0] < 0xF0
  {
    Fields(a * 262144 + b * 4096 + c * 64 + d, a, b, c, d);
  }

  /** A byte of a longer sequence is its mark and its payload. */
  lemma Parts(b: byte)
    ensures Tail(b) ==> b == 0x80 + Six(b)
    ensures 0xF0 <= b < 0xF8 ==> b == 0xF0 + Lead(b) && Lead(b) < 8
  {
  }

  /** Encoding what was decoded gives the bytes back exactly in the shortest form. */
  lemma EncodeDecoded(s: seq<byte>)
    requires s != []
    ensures Decode(s).len <= |s|
    ensures Shortest(s) ==> Encode(Decode(s).cp) == s[..Decode(s).len]
    ensures !Shortest(s) ==> !(Encode(Decode(s).cp) <= s)
  {
    DecodeAdvances(s);
    if Decode(s).len == 1 {
      var e := Encode(REPLACEMENT);
      assert e == [0xEF, 0xBF, 0xBD];
    } else {
      hide Decode, Encode;
      if Decode(s).len == 2 { EncodeDecodedTwo(s); }
      else if Decode(s).len == 3 { EncodeDecodedThree(s); }
      else { EncodeDecodedFour(s); }
    }
  }

  /** A number put together from 6-bit fields comes apart into them. */
  lemma Fields(cp: nat, a: nat, b: nat, c: nat, d: nat)
    requires b < 64 && c < 64 && d < 64 && cp == a * 262144 + b * 4096 + c * 64 + d
    ensures cp % 64 == d && cp / 64 % 64 == c && cp / 4096 % 64 == b && cp / 262144 == a
    ensures cp / 64 == a * 4096 + b * 64 + c && cp / 4096 == a * 64 + b
  {
    assert cp / 64 == a * 4096 + b * 64 + c;
    assert cp / 4096 == a * 64 + b;
  }

  // ---- Against RFC 3629 ---------------------------------------------------

  /** A Unicode scalar value. */
  predicate Scalar(cp: nat) {
    cp < 0xD800 || 0xE000 <= cp <= 0x10FFFF
  }

  /** The text starts with a UTF8-char of the ABNF in section 4 of RFC 3629. */
  predicate Rfc3629Char(s: seq<byte>) {
    || (|s| > 0 && s[0] <= 0x7F)
    || (|s| > 1 && 0xC2 <= s[0] <= 0xDF && Tail(s[1]))
    || (|s| > 2 && s[0] == 0xE0 && 0xA0 <= s[1] <= 0xBF && Tail(s[2]))
    || (|s| > 2 && (0xE1 <= s[0] <= 0xEC || 0xEE <= s[0] <= 0xEF) && Tail(s[1]) && Tail(s[2]))
    || (|s| > 2 && s[0] == 0xED && 0x80 <= s[1] <= 0x9F && Tail(s[2]))
    || (|s| > 3 && s[0] == 0xF0 && 0x90 <= s[1] <= 0xBF && Tail(s[2]) && Tail(s[3]))
    || (|s| > 3 && 0xF1 <= s[0] <= 0xF3 && Tail(s[1]) && Tail(s[2]) && Tail(s[3]))
    || (|s| > 3 && s[0] == 0xF4 && 0x80 <= s[1] <= 0x8F && Tail(s[2]) && Tail(s[3]))
  }

  lemma StandardOne(s: seq<byte>)
    requires s != [] && Decode(s).len == 1
    ensures Rfc3629Char(s) <==> Decode(s).cp < 0x80
  {
  }

  lemma StandardTwo(s: seq<byte>)
    requires s != [] && Decode(s).len == 2
    ensures Rfc3629Char(s) <==> Decode(s).cp >= 0x80
  {
  }

  lemma StandardThree(s: seq<byte>)
    requires s != [] && Decode(s).len == 3
    ensures Rfc3629Char(s) <==> Decode(s).cp >= 0x800 && Scalar(Decode(s).cp)
  {
  }

  lemma StandardFour(s: seq<byte>)
    requires s != [] && Decode(s).len == 4
    ensures Rfc3629Char(s) <==> Decode(s).cp >= 0x10000 && Scalar(Decode(s).cp)
  {
  }

  /**
    What the decoder takes without replacing is a character of the standard exactly
    when it is shortest and a scalar value: overlong forms, surrogates and values
    above U+10FFFF are let through.
   */
  lemma StandardExactly(s: seq<byte>)
    ensures Rfc3629Char(s) <==> s != [] && Shortest(s) && Scalar(Decode(s).cp)
  {
    if s != [] {
      DecodeAdvances(s);
      TwoIsSmall(s);
      hide Decode, Rfc3629Char;
      if Decode(s).len == 1 { StandardOne(s); }
      else if Decode(s).len == 2 { StandardTwo(s); }
      else if Decode(s).len == 3 { StandardThree(s); }
      else { StandardFour(s); }
    }
  }

  lemma TwoIsSmall(s: seq<byte>)
    ensures s != [] && Decode(s).len == 2 ==> Decode(s).cp < 0x800
  {
  }

  /** The three kinds of ill-formed sequence that come out as code points of their own. */
  lemma LetThrough()
    ensures Decode([0xC1, 0x81]) == Step(0x41, 2) && !Rfc3629Char([0xC1, 0x81])
    ensures Decode([0xED, 0xA0, 0x80]) == Step(0xD800, 3) && !Rfc3629Char([0xED, 0xA0, 0x80])
    ensures Decode([0xF7, 0xBF, 0xBF, 0xBF]) == Step(0x1FFFFF, 4) && !Rfc3629Char([0xF7, 0xBF, 0xBF, 0xBF])
  {
  }

  // ---- Whole texts --------------------------------------------------------

  function DecodeAll(s: seq<byte>): seq<nat>
    decreases |s|
  {
    if s == [] then []
    else
      DecodeAdvances(s);
      [Decode(s).cp] + DecodeAll(s[Decode(s).len..])
  }

  function EncodeAll(cps: seq<nat>): seq<byte> {
    if cps == [] then [] else Encode(cps[0]) + EncodeAll(cps[1..])
  }

  /** Decoding the encodings of any list of 21-bit values returns the list and consumes every byte. */
  lemma {:induction false} DecodeAllEncodings(cps: seq<nat>)
    requires forall i :: 0 <= i < |cps| ==> cps[i] < 0x200000
    ensures DecodeAll(EncodeAll(cps)) == cps
  {
    if cps != [] {
      hide Decode, Encode;
      DecodeEncoding(cps[0], EncodeAll(cps[1..]));
      var s := EncodeAll(cps);
      assert s[|Encode(cps[0])|..] == EncodeAll(cps[1..]);
      DecodeAllEncodings(cps[1..]);
    }
  }

  /** Every character of the text is in shortest form and none is replaced. */
  predicate AllShortest(s: seq<byte>)
    decreases |s|
  {
    if s == [] then true
    else
      DecodeAdvances(s);
      Shortest(s) && AllShortest(s[Decode(s).len..])
  }

  lemma SplitAt(a: seq<byte>, rest: seq<byte>, s: seq<byte>)
    ensures a + rest == s <==> a <= s && rest == s[|a|..]
  {
    if a + rest == s { assert a <= s && s[|a|..] == rest; }
    if a <= s && rest == s[|a|..] { assert s == s[..|a|] + s[|a|..]; }
  }

  /** Decoding a text and encoding it again gives the text back exactly when all of it is in shortest form. */
  lemma {:induction false} EncodeAllDecoded(s: seq<byte>)
    ensures EncodeAll(DecodeAll(s)) == s <==> AllShortest(s)
    decreases |s|
  {
    hide Decode, Encode, Shortest;
    if s != [] {
      DecodeAdvances(s);
      EncodeDecoded(s);
      var d := Decode(s);
      var rest := DecodeAll(s[d.len..]);
      EncodeAllDecoded(s[d.len..]);
      assert DecodeAll(s)[0] == d.cp && DecodeAll(s)[1..] == rest;
      SplitAt(Encode(d.cp), EncodeAll(rest), s);
    }
  }
}
