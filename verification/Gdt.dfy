/** Segment descriptors: the packed 8-byte form of section 3.4.5 of the Intel SDM,
    volume 3A, written byte by byte. */
module Gdt {

  datatype Segment = Segment(base: bv32, limit: bv32, access: bv8)

  /** The limits a descriptor can hold: 16 bits, or 4 KB granules. */
  predicate LimitFits(limit: bv32) {
    limit <= 0xffff || limit & 0xfff == 0xfff
  }

  predicate Encodable(s: Segment) {
    LimitFits(s.limit)
  }

  // The bytes of a word, the high nibble of a limit, and a limit counted in 4 KB granules.

  function Byte0(x: bv32): bv8 { (x & 0xff) as bv8 }

  function Byte1(x: bv32): bv8 { ((x >> 8) & 0xff) as bv8 }

  function Byte2(x: bv32): bv8 { ((x >> 16) & 0xff) as bv8 }

  function Byte3(x: bv32): bv8 { ((x >> 24) & 0xff) as bv8 }

  function Nibble(limit: bv32): bv8 { ((limit >> 16) & 0x0f) as bv8 }

  function Granules(limit: bv32): bv32 { limit >> 12 }

  /** The limit field, and the byte with its high nibble, size and granularity. */
  function Field(limit: bv32): bv32 {
    if limit > 0xffff then Granules(limit) else limit
  }

  function FlagByte(limit: bv32): bv8 {
    if limit > 0xffff then 0xc0 | Nibble(Granules(limit)) else 0x40 | Nibble(limit)
  }

  function Encoded(s: Segment): (b: seq<bv8>)
    ensures |b| == 8
  {
    var limit := Field(s.limit);
    [Byte0(limit), Byte1(limit), Byte0(s.base), Byte1(s.base), Byte2(s.base), s.access,
     FlagByte(s.limit), Byte3(s.base)]
  }

  // What the processor reads from a descriptor.

  function BaseOf(b0: bv8, b1: bv8, b2: bv8, b3: bv8): bv32 {
    (b0 as bv32) | ((b1 as bv32) << 8) | ((b2 as bv32) << 16) | ((b3 as bv32) << 24)
  }

  function LimitOf(b0: bv8, b1: bv8, flags: bv8): bv32 {
    var field := (b0 as bv32) | ((b1 as bv32) << 8) | (((flags & 0x0f) as bv32) << 16);
    if flags & 0x80 != 0 then (field << 12) | 0xfff else field
  }

  function Decoded(b: seq<bv8>): Segment
    requires |b| == 8
  {
    Segment(BaseOf(b[2], b[3], b[4], b[7]), LimitOf(b[0], b[1], b[6]), b[5])
  }

  lemma BaseSurvives(x: bv32)
    ensures BaseOf(Byte0(x), Byte1(x), Byte2(x), Byte3(x)) == x
  {
  }

  lemma LimitSurvivesIff(x: bv32)
    ensures LimitOf(Byte0(Field(x)), Byte1(Field(x)), FlagByte(x)) == x
            <==> LimitFits(x)
  {
  }

  /** Base and type survive encoding, and the limit does exactly when it is encodable. */
  lemma DecodedEncoded(s: Segment)
    ensures Decoded(Encoded(s)) == s <==> Encodable(s)
  {
    hide BaseOf, LimitOf, Byte0, Byte1, Byte2, Byte3, Field, FlagByte, LimitFits;
    BaseSurvives(s.base);
    LimitSurvivesIff(s.limit);
    assert Decoded(Encoded(s)).base == s.base && Decoded(Encoded(s)).access == s.access;
  }

  /** Where the base and the type go. */
  lemma BaseLayout(s: Segment)
    ensures var e := Encoded(s);
      && e[2] as bv32 == s.base & 0xff && e[3] as bv32 == (s.base >> 8) & 0xff
      && e[4] as bv32 == (s.base >> 16) & 0xff && e[7] as bv32 == s.base >> 24
      && e[5] == s.access
  {
    hide Byte0, Byte1, Byte2, Byte3, FlagByte, Field;
    BaseBytes(s.base);
  }

  /** The limit in bytes 0 and 1 and the low half of byte 6, counted in 4 KB granules above
      16 bits; the high half of byte 6 says 32-bit size always, and granularity exactly for
      those large limits. */
  predicate HoldsLimit(b0: bv8, b1: bv8, b6: bv8, limit: bv32) {
    var field := if limit > 0xffff then limit >> 12 else limit;
    && b0 as bv32 == field & 0xff && b1 as bv32 == (field >> 8) & 0xff
    && (b6 & 0x0f) as bv32 == (field >> 16) & 0x0f
    && b6 & 0x70 == 0x40 && (b6 & 0x80 != 0 <==> limit > 0xffff)
  }

  lemma LimitBytes(limit: bv32)
    ensures HoldsLimit(Byte0(Field(limit)), Byte1(Field(limit)), FlagByte(limit), limit)
  {
  }

  /** Where the limit goes, and the descriptor's own bits. */
  lemma LimitLayout(s: Segment)
    ensures HoldsLimit(Encoded(s)[0], Encoded(s)[1], Encoded(s)[6], s.limit)
  {
    hide Byte0, Byte1, Byte2, Byte3, FlagByte, Field, HoldsLimit;
    LimitBytes(s.limit);
  }

  lemma BaseBytes(x: bv32)
    ensures Byte0(x) as bv32 == x & 0xff && Byte1(x) as bv32 == (x >> 8) & 0xff
    ensures Byte2(x) as bv32 == (x >> 16) & 0xff && Byte3(x) as bv32 == x >> 24
  {
  }

  /** Distinct segments have distinct descriptors. */
  lemma EncodedInjective(s: Segment, t: Segment)
    requires Encodable(s) && Encodable(t) && Encoded(s) == Encoded(t)
    ensures s == t
  {
    hide Encoded, Decoded, Encodable;
    DecodedEncoded(s);
    DecodedEncoded(t);
  }

  /** The limit part of encode_gdt_entry. */
  method EncodeLimit(gdt: array<bv8>, at: nat, size: bv32)
    requires at + 8 <= gdt.Length
    modifies gdt
    ensures gdt[at] == Byte0(Field(size)) && gdt[at + 1] == Byte1(Field(size)) && gdt[at + 6] == FlagByte(size)
    ensures forall k | 0 <= k < gdt.Length && k != at && k != at + 1 && k != at + 6 :: gdt[k] == old(gdt[k])
  {
    hide Byte0, Byte1, Nibble, Granules;
    var limit := size;
    gdt[at + 6] := 0x40;
    if limit > 0xffff {
      limit := Granules(limit);
      gdt[at + 6] := 0xc0;
    }
    gdt[at] := Byte0(limit);
    gdt[at + 1] := Byte1(limit);
    gdt[at + 6] := gdt[at + 6] | Nibble(limit);
  }

  /** The base part of encode_gdt_entry. */
  method EncodeBase(gdt: array<bv8>, at: nat, base: bv32)
    requires at + 8 <= gdt.Length
    modifies gdt
    ensures gdt[at + 2] == Byte0(base) && gdt[at + 3] == Byte1(base)
    ensures gdt[at + 4] == Byte2(base) && gdt[at + 7] == Byte3(base)
    ensures forall k | 0 <= k < gdt.Length && !(at + 2 <= k <= at + 4) && k != at + 7 :: gdt[k] == old(gdt[k])
  {
    hide Byte0, Byte1, Byte2, Byte3;
    gdt[at + 2] := Byte0(base);
    gdt[at + 3] := Byte1(base);
    gdt[at + 4] := Byte2(base);
    gdt[at + 7] := Byte3(base);
  }

  /** encode_gdt_entry on the descriptor at byte `at` of a table: its eight bytes are
      overwritten and no others. A segment that is not encodable stops the kernel. */
  method EncodeEntry(gdt: array<bv8>, at: nat, source: Segment)
    requires at + 8 <= gdt.Length && Encodable(source)
    modifies gdt
    ensures forall k | 0 <= k < gdt.Length ::
      gdt[k] == if at <= k < at + 8 then Encoded(source)[k - at] else old(gdt[k])
  {
    hide Byte0, Byte1, Byte2, Byte3, Nibble, Granules, Encodable, FlagByte, Field;
    EncodeLimit(gdt, at, source.limit);
    EncodeBase(gdt, at, source.base);
    gdt[at + 5] := source.access;
  }

  /** gdt_structured_to_gdt: every descriptor of the table is the encoding of its segment,
      and so decodes to it. */
  method StructuredToGdt(gdt: array<bv8>, source: seq<Segment>)
    requires gdt.Length == 8 * |source| && forall s | s in source :: Encodable(s)
    modifies gdt
    ensures forall i | 0 <= i < |source| :: Decoded(gdt[8 * i..8 * i + 8]) == source[i]
  {
    hide Encoded, Decoded, Encodable;
    for i := 0 to |source|
      invariant forall j | 0 <= j < i :: gdt[8 * j..8 * j + 8] == Encoded(source[j])
    {
      ghost var before := gdt[..];
      EncodeEntry(gdt, 8 * i, source[i]);
      assert gdt[8 * i..8 * i + 8] == Encoded(source[i]);
      assert forall j | 0 <= j < i :: gdt[8 * j..8 * j + 8] == before[8 * j..8 * j + 8];
    }
    forall i | 0 <= i < |source|
      ensures Decoded(Encoded(source[i])) == source[i]
    {
      DecodedEncoded(source[i]);
    }
  }
}
