/**
 The byte layout of a delivery statistics detail record: 309 bytes holding
 63 fixed-width fields, numbered from 1. Fields 1-5 and 59-63 are identifiers
 kept as text; fields 6-58 are counts written in decimal. The fields follow
 one another with two exceptions: byte 176 lies unused between fields 36 and
 37, and bytes 216-218 between fields 44 and 45. Counts are 5 bytes wide
 except field 37 (4 bytes) and field 45 (2 bytes).
 */
module Layout {

  const RecordLength: nat := 309

  const FieldCount: nat := 63

  predicate IsField(f: nat) {
    1 <= f <= FieldCount
  }

  /** Fields 6-58 are parsed as integers; every other field stays text. */
  predicate IsCountField(f: nat) {
    6 <= f <= 58
  }

  /** The number of bytes field `f` occupies. */
  function Width(f: nat): nat
    requires IsField(f)
  {
    if f == 1 || f == 4 then 1        // copyright detail code, action code
    else if f == 3 then 10            // update key number
    else if f == 5 then 4             // carrier route id
    else if f == 37 then 4            // possible business detached box count
    else if f == 45 then 2            // possible residential CBU count
    else if f == 60 then 2            // state abbreviation
    else if f == 61 then 3            // county code
    else if f == 59 || f == 62 || f == 63 then 6   // finance number, city-state keys
    else 5                            // ZIP code and every other count
  }

  /** The number of unused bytes just before field `f`. */
  function GapBefore(f: nat): nat {
    if f == 37 then 1 else if f == 45 then 3 else 0
  }

  /**
   The first byte of field `f`: fields 6-36, 38-44 and 46-59 are runs of
   5-byte counts, and the short fields around them are placed one by one.
   */
  function Start(f: nat): nat
    requires IsField(f)
  {
    if f == 1 then 0
    else if f == 2 then 1
    else if f == 3 then 6
    else if f == 4 then 16
    else if f == 5 then 17
    else if f <= 36 then 21 + 5 * (f - 6)
    else if f == 37 then 177
    else if f <= 44 then 181 + 5 * (f - 38)
    else if f == 45 then 219
    else if f <= 59 then 221 + 5 * (f - 46)
    else if f == 60 then 292
    else if f == 61 then 294
    else if f == 62 then 297
    else 303
  }

  /** One past the last byte of field `f`. */
  function End(f: nat): nat
    requires IsField(f)
  {
    Start(f) + Width(f)
  }

  /** The half-open byte range [start, end) of field `f`. */
  function Span(f: nat): (nat, nat)
    requires IsField(f)
  {
    (Start(f), End(f))
  }

  /** Bytes of a record that belong to no field. */
  predicate Skipped(k: nat) {
    k == 176 || 216 <= k <= 218
  }

  /** The offsets of fields 1-16. */
  lemma SpanTableA()
    ensures Span(1) == (0, 1)
    ensures Span(2) == (1, 6)
    ensures Span(3) == (6, 16)
    ensures Span(4) == (16, 17)
    ensures Span(5) == (17, 21)
    ensures Span(6) == (21, 26)
    ensures Span(7) == (26, 31)
    ensures Span(8) == (31, 36)
    ensures Span(9) == (36, 41)
    ensures Span(10) == (41, 46)
    ensures Span(11) == (46, 51)
    ensures Span(12) == (51, 56)
    ensures Span(13) == (56, 61)
    ensures Span(14) == (61, 66)
    ensures Span(15) == (66, 71)
    ensures Span(16) == (71, 76)
  {
  }

  /** The offsets of fields 17-32. */
  lemma SpanTableB()
    ensures Span(17) == (76, 81)
    ensures Span(18) == (81, 86)
    ensures Span(19) == (86, 91)
    ensures Span(20) == (91, 96)
    ensures Span(21) == (96, 101)
    ensures Span(22) == (101, 106)
    ensures Span(23) == (106, 111)
    ensures Span(24) == (111, 116)
    ensures Span(25) == (116, 121)
    ensures Span(26) == (121, 126)
    ensures Span(27) == (126, 131)
    ensures Span(28) == (131, 136)
    ensures Span(29) == (136, 141)
    ensures Span(30) == (141, 146)
    ensures Span(31) == (146, 151)
    ensures Span(32) == (151, 156)
  {
  }

  /** The offsets of fields 33-48. */
  lemma SpanTableC()
    ensures Span(33) == (156, 161)
    ensures Span(34) == (161, 166)
    ensures Span(35) == (166, 171)
    ensures Span(36) == (171, 176)
    ensures Span(37) == (177, 181)
    ensures Span(38) == (181, 186)
    ensures Span(39) == (186, 191)
    ensures Span(40) == (191, 196)
    ensures Span(41) == (196, 201)
    ensures Span(42) == (201, 206)
    ensures Span(43) == (206, 211)
    ensures Span(44) == (211, 216)
    ensures Span(45) == (219, 221)
    ensures Span(46) == (221, 226)
    ensures Span(47) == (226, 231)
    ensures Span(48) == (231, 236)
  {
  }

  /** The offsets of fields 49-63. */
  lemma SpanTableD()
    ensures Span(49) == (236, 241)
    ensures Span(50) == (241, 246)
    ensures Span(51) == (246, 251)
    ensures Span(52) == (251, 256)
    ensures Span(53) == (256, 261)
    ensures Span(54) == (261, 266)
    ensures Span(55) == (266, 271)
    ensures Span(56) == (271, 276)
    ensures Span(57) == (276, 281)
    ensures Span(58) == (281, 286)
    ensures Span(59) == (286, 292)
    ensures Span(60) == (292, 294)
    ensures Span(61) == (294, 297)
    ensures Span(62) == (297, 303)
    ensures Span(63) == (303, 309)
  {
  }

  /** Each field starts where the previous one ends, after the gap before it. */
  lemma FieldsAdjacent(f: nat)
    requires IsField(f) && f > 1
    ensures Start(f) == End(f - 1) + GapBefore(f)
  {
  }

  /** Fields never overlap and appear in field-number order. */
  lemma {:induction false} FieldsInOrder(f: nat, g: nat)
    requires IsField(f) && IsField(g) && f < g
    ensures End(f) <= Start(g)
    decreases g
  {
    FieldsAdjacent(g);
    if f < g - 1 {
      FieldsInOrder(f, g - 1);
    }
  }

  /** Every field is non-empty and lies inside the 309-byte record. */
  lemma FieldInRecord(f: nat)
    requires IsField(f)
    ensures Start(f) < End(f) <= RecordLength
  {
    SpanTableC();
    SpanTableD();
    if f < FieldCount {
      FieldsInOrder(f, FieldCount);
    }
  }

  lemma AllFieldsInRecord()
    ensures forall f: nat | IsField(f) :: Start(f) < End(f) <= RecordLength
  {
    forall f: nat | IsField(f)
      ensures Start(f) < End(f) <= RecordLength
    {
      FieldInRecord(f);
    }
  }

  /** Counts are 5 digits wide, except field 37 (4 digits) and field 45 (2 digits). */
  lemma CountWidths()
    ensures forall f: nat | IsCountField(f) ::
      End(f) - Start(f) == if f == 37 then 4 else if f == 45 then 2 else 5
  {
  }

  /** The skipped bytes lie outside every field. */
  lemma SkippedBytesUnread(f: nat, k: nat)
    requires IsField(f) && Skipped(k)
    ensures !(Start(f) <= k < End(f))
  {
    SpanTableC();
    SpanTableD();
    if f < 36 {
      FieldsInOrder(f, 36);
    } else if 37 < f {
      FieldsInOrder(37, f);
    }
    if f < 44 {
      FieldsInOrder(f, 44);
    } else if 45 < f {
      FieldsInOrder(45, f);
    }
  }
}
