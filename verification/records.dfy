/**
 Decoding of the two kinds of 309-byte block in a delivery statistics file:
 the copyright (header) record, which carries the release month, and the
 detail record, one per carrier route, which becomes a 64-slot field list
 indexed by field number.
 */
module Records {
  import opened Wrappers
  import opened Bytes
  import opened Integers
  import opened Layout

  /** One entry of the decoded field list. Slot 0 holds nothing. */
  datatype Slot = Unused | Text(bytes: Bytes) | Count(value: int)

  /** What the decoder and the accumulator can raise: `int()` refusing the
      text of count field `field`, or a missing dictionary key. */
  datatype Error = ValueError(field: nat, text: Bytes) | KeyError(zip: Bytes)

  /** A field list as the detail decoder produces it: 64 slots, slot 0 unused,
      counts in fields 6-58 and text everywhere else. */
  predicate WellFormed(fields: seq<Slot>) {
    && |fields| == FieldCount + 1
    && fields[0] == Unused
    && forall f | 1 <= f <= FieldCount ::
         if IsCountField(f) then fields[f].Count? else fields[f].Text?
  }

  /** The ZIP code of a decoded record: the raw text of field 2. */
  function ZipOf(fields: seq<Slot>): Bytes
    requires WellFormed(fields)
  {
    fields[2].bytes
  }

  /** The raw bytes of field `f` of `block`, sliced as Python slices. */
  function FieldBytes(block: Bytes, f: nat): Bytes
    requires IsField(f)
  {
    Slice(block, Start(f), End(f))
  }

  /** The release tag of the copyright record: the bytes at [19, 24), or as
      many of them as the block has. */
  function CopyrightRecord(header: Bytes): (release: Bytes)
    ensures |header| >= 24 ==> release == header[19..24] && |release| == 5
    ensures |header| <= 19 ==> release == []
    ensures 19 < |header| < 24 ==> release == header[19..]
  {
    Slice(header, 19, 24)
  }

  function DecodeSlot(block: Bytes, f: nat): Result<Slot, Error>
    requires f <= FieldCount
  {
    if f == 0 then Ok(Unused)
    else if IsCountField(f) then
      match ParseInt(FieldBytes(block, f))
      case Some(v) => Ok(Count(v))
      case None => Err(ValueError(f, FieldBytes(block, f)))
    else Ok(Text(FieldBytes(block, f)))
  }

  /** Slots 0 .. n-1 produced by `decode`, appended in field order. The
      first failing slot stops the decoding, as the first exception would;
      its index comes back with its error. */
  function DecodeFields(decode: nat -> Result<Slot, Error>, n: nat): (r: Result<seq<Slot>, (nat, Error)>)
    ensures r.Ok? <==> forall f: nat | f < n :: decode(f).Ok?
    ensures r.Ok? ==> |r.value| == n && forall f: nat | f < n :: decode(f) == Ok(r.value[f])
    ensures r.Err? ==> var (f, e) := r.error;
      f < n && decode(f) == Err(e) && forall g: nat | g < f :: decode(g).Ok?
  {
    if n == 0 then Ok([])
    else
      var prefix :- DecodeFields(decode, n - 1);
      match decode(n - 1)
      case Ok(slot) => Ok(prefix + [slot])
      case Err(e) => Err((n - 1, e))
  }

  /** The detail decoder: every text field is the raw slice at its offsets;
      every count field is `int()` of its slice; decoding fails exactly when
      some count slice is not an integer, and then with the first such field. */
  function DetailRecord(block: Bytes): (r: Result<seq<Slot>, Error>)
    ensures r.Ok? <==> forall f: nat | IsCountField(f) :: ParseInt(FieldBytes(block, f)).Some?
    ensures r.Ok? ==> WellFormed(r.value)
    ensures r.Ok? ==> forall f: nat | IsField(f) && !IsCountField(f) :: r.value[f] == Text(FieldBytes(block, f))
    ensures r.Ok? ==> forall f: nat | IsCountField(f) :: ParseInt(FieldBytes(block, f)) == Some(r.value[f].value)
    ensures r.Err? ==>
      && r.error.ValueError?
      && IsCountField(r.error.field)
      && r.error.text == FieldBytes(block, r.error.field)
      && ParseInt(r.error.text).None?
      && forall g: nat | 6 <= g < r.error.field :: ParseInt(FieldBytes(block, g)).Some?
  {
    var decode := (f: nat) => if f <= FieldCount then DecodeSlot(block, f) else Ok(Unused);
    assert SlotDecoderFor(block, decode);
    match DecodeFields(decode, FieldCount + 1)
    case Ok(fields) =>
      DecodedSlots(block, decode, fields);
      Ok(fields)
    case Err((f, e)) =>
      FailedSlot(block, decode, f, e);
      Err(e)
  }

  /** The decoder that `DetailRecord` hands to `DecodeFields`. */
  ghost predicate SlotDecoderFor(block: Bytes, decode: nat -> Result<Slot, Error>) {
    forall f: nat | f <= FieldCount :: decode(f) == DecodeSlot(block, f)
  }

  lemma DecodedSlots(block: Bytes, decode: nat -> Result<Slot, Error>, fields: seq<Slot>)
    requires SlotDecoderFor(block, decode)
    requires |fields| == FieldCount + 1
    requires forall f: nat | f <= FieldCount :: decode(f) == Ok(fields[f])
    ensures WellFormed(fields)
    ensures forall f: nat | IsField(f) && !IsCountField(f) :: fields[f] == Text(FieldBytes(block, f))
    ensures forall f: nat | IsCountField(f) :: ParseInt(FieldBytes(block, f)) == Some(fields[f].value)
  {
    forall f: nat | IsField(f)
      ensures if IsCountField(f) then fields[f].Count? && ParseInt(FieldBytes(block, f)) == Some(fields[f].value)
              else fields[f] == Text(FieldBytes(block, f))
    {
      assert decode(f) == Ok(fields[f]);
    }
    assert decode(0) == Ok(fields[0]);
  }

  lemma FailedSlot(block: Bytes, decode: nat -> Result<Slot, Error>, f: nat, e: Error)
    requires SlotDecoderFor(block, decode)
    requires f <= FieldCount && decode(f) == Err(e)
    requires forall g: nat | g < f :: decode(g).Ok?
    ensures IsCountField(f) && e == ValueError(f, FieldBytes(block, f))
    ensures ParseInt(FieldBytes(block, f)).None?
    ensures !forall g: nat | IsCountField(g) :: ParseInt(FieldBytes(block, g)).Some?
    ensures forall g: nat | 6 <= g < f :: ParseInt(FieldBytes(block, g)).Some?
  {
    forall g: nat | 6 <= g < f
      ensures ParseInt(FieldBytes(block, g)).Some?
    {
      assert decode(g).Ok?;
    }
  }

  /** The ZIP code of a full detail record is the 5 raw bytes at [1, 6),
      leading zeros included. */
  lemma ZipField(block: Bytes)
    requires |block| == RecordLength && DetailRecord(block).Ok?
    ensures ZipOf(DetailRecord(block).value) == block[1..6]
    ensures |ZipOf(DetailRecord(block).value)| == 5
  {
  }

  /** Field 37 is read from the 4 bytes at [177, 181) and field 45 from the 2
      bytes at [219, 221). */
  lemma IrregularFields(block: Bytes)
    requires |block| == RecordLength && DetailRecord(block).Ok?
    ensures ParseInt(block[177..181]) == Some(DetailRecord(block).value[37].value)
    ensures ParseInt(block[219..221]) == Some(DetailRecord(block).value[45].value)
  {
    var fields := DetailRecord(block).value;
    assert Start(37) == 177 && End(37) == 181 && Start(45) == 219 && End(45) == 221;
    assert FieldBytes(block, 37) == block[177..181];
    assert FieldBytes(block, 45) == block[219..221];
    assert ParseInt(FieldBytes(block, 37)) == Some(fields[37].value);
    assert ParseInt(FieldBytes(block, 45)) == Some(fields[45].value);
  }

  /** Blocks whose fields hold the same bytes. */
  ghost predicate SameFieldBytes(a: Bytes, b: Bytes) {
    forall f: nat | IsField(f) :: FieldBytes(a, f) == FieldBytes(b, f)
  }

  lemma SameParses(a: Bytes, b: Bytes)
    requires SameFieldBytes(a, b)
    ensures forall f: nat | IsCountField(f) :: ParseInt(FieldBytes(a, f)) == ParseInt(FieldBytes(b, f))
  {
    forall f: nat | IsCountField(f)
      ensures ParseInt(FieldBytes(a, f)) == ParseInt(FieldBytes(b, f))
    {
      assert FieldBytes(a, f) == FieldBytes(b, f);
    }
  }

  lemma DecodedAlike(a: Bytes, b: Bytes)
    requires SameFieldBytes(a, b)
    requires DetailRecord(a).Ok? && DetailRecord(b).Ok?
    ensures DetailRecord(a) == DetailRecord(b)
  {
    var x, y := DetailRecord(a).value, DetailRecord(b).value;
    SameParses(a, b);
    forall f: nat | IsCountField(f)
      ensures x[f].value == y[f].value
    {
      assert ParseInt(FieldBytes(a, f)) == Some(x[f].value);
      assert ParseInt(FieldBytes(b, f)) == Some(y[f].value);
    }
    forall f: nat | IsField(f) && !IsCountField(f)
      ensures x[f] == y[f]
    {
      assert x[f] == Text(FieldBytes(a, f));
      assert y[f] == Text(FieldBytes(b, f));
    }
    SameSlots(x, y);
  }

  /** A failing decode reports the first count field that is not an integer. */
  lemma ErrorFieldIsFirst(block: Bytes, g: nat)
    requires DetailRecord(block).Err?
    requires IsCountField(g) && ParseInt(FieldBytes(block, g)).None?
    ensures DetailRecord(block).error.field <= g
  {
  }

  lemma FailedAlike(a: Bytes, b: Bytes)
    requires SameFieldBytes(a, b)
    requires DetailRecord(a).Err? && DetailRecord(b).Err?
    ensures DetailRecord(a) == DetailRecord(b)
  {
    var ea, eb := DetailRecord(a).error, DetailRecord(b).error;
    SameParses(a, b);
    ErrorFieldIsFirst(a, eb.field);
    ErrorFieldIsFirst(b, ea.field);
    assert ea.field == eb.field;
    assert ea.text == eb.text;
  }

  /** Two blocks whose fields hold the same bytes decode alike: the decoder
      looks at nothing but the field slices. */
  lemma DecodeSeesOnlyFields(a: Bytes, b: Bytes)
    requires forall f: nat | IsField(f) :: FieldBytes(a, f) == FieldBytes(b, f)
    ensures DetailRecord(a) == DetailRecord(b)
  {
    assert SameFieldBytes(a, b);
    SameParses(a, b);
    if DetailRecord(a).Ok? {
      DecodedAlike(a, b);
    } else {
      FailedAlike(a, b);
    }
  }

  /** Two well-formed field lists that agree slot by slot are equal. */
  lemma SameSlots(x: seq<Slot>, y: seq<Slot>)
    requires WellFormed(x) && WellFormed(y)
    requires forall f: nat | IsField(f) && !IsCountField(f) :: x[f] == y[f]
    requires forall f: nat | IsCountField(f) :: x[f].value == y[f].value
    ensures x == y
  {
    forall f: nat | f < |x|
      ensures x[f] == y[f]
    {
      if IsCountField(f) {
        assert x[f].Count? && y[f].Count?;
      }
    }
  }

  /** Byte 176 and bytes 216-218 of a record never influence its decoding. */
  lemma SkippedBytesIgnored(a: Bytes, b: Bytes)
    requires |a| == |b|
    requires forall k: nat | k < |a| && !Skipped(k) :: a[k] == b[k]
    ensures DetailRecord(a) == DetailRecord(b)
  {
    forall f: nat | IsField(f)
      ensures FieldBytes(a, f) == FieldBytes(b, f)
    {
      var x, y := FieldBytes(a, f), FieldBytes(b, f);
      forall k | 0 <= k < |x|
        ensures x[k] == y[k]
      {
        if Skipped(Start(f) + k) {
          SkippedBytesUnread(f, Start(f) + k);
        }
      }
    }
    DecodeSeesOnlyFields(a, b);
  }

  /** A field list that fits the layout: each text field has exactly its
      field's width and each count fits its field's digits. */
  predicate Encodable(fields: seq<Slot>) {
    && WellFormed(fields)
    && (forall f: nat | 1 <= f <= FieldCount && !IsCountField(f) :: |fields[f].bytes| == Width(f))
    && (forall f: nat | 6 <= f <= 58 :: 0 <= fields[f].value < Pow10(Width(f)))
  }

  /** Field `f` as written into a record: text as is, counts zero-padded. */
  function EncodeSlot(fields: seq<Slot>, f: nat): (r: Bytes)
    requires Encodable(fields) && IsField(f)
    ensures |r| == Width(f)
  {
    if IsCountField(f) then PadDecimal(fields[f].value, Width(f)) else fields[f].bytes
  }

  /** Where the bytes before field `f` end. */
  function PrevEnd(f: nat): nat
    requires IsField(f)
  {
    if f == 1 then 0 else End(f - 1)
  }

  lemma GapBeforeField(f: nat)
    requires IsField(f)
    ensures Start(f) == PrevEnd(f) + GapBefore(f)
  {
    if f > 1 {
      FieldsAdjacent(f);
    }
  }

  /** Pieces that fit the fields they are meant for: `pieces[f]` is as wide as field `f`. */
  predicate FitsFields(pieces: seq<Bytes>) {
    |pieces| == FieldCount + 1 && forall f: nat | 1 <= f <= FieldCount :: |pieces[f]| == Width(f)
  }

  /** Pieces 1 .. n written one after the other at their fields' offsets,
      with `pad` in the skipped bytes. */
  function Lay(pieces: seq<Bytes>, pad: byte, n: nat): (r: Bytes)
    requires FitsFields(pieces) && n <= FieldCount
    ensures |r| == if n == 0 then 0 else End(n)
    ensures forall f: nat | 1 <= f <= n :: r[Start(f)..End(f)] == pieces[f]
  {
    if n == 0 then []
    else
      GapBeforeField(n);
      var prev := Lay(pieces, pad, n - 1);
      var gap := seq(Start(n) - PrevEnd(n), _ => pad);
      AppendKeepsSlices(prev, gap, pieces[n], n - 1);
      prev + gap + pieces[n]
  }

  /** Appending the gap and the next field leaves the earlier fields in place. */
  lemma AppendKeepsSlices(prev: Bytes, gap: Bytes, piece: Bytes, m: nat)
    requires m < FieldCount
    requires |prev| == PrevEnd(m + 1) && |prev| + |gap| == Start(m + 1) && |piece| == Width(m + 1)
    ensures forall f: nat | 1 <= f <= m :: (prev + gap + piece)[Start(f)..End(f)] == prev[Start(f)..End(f)]
    ensures (prev + gap + piece)[Start(m + 1)..End(m + 1)] == piece
  {
    forall f: nat | 1 <= f <= m
      ensures (prev + gap + piece)[Start(f)..End(f)] == prev[Start(f)..End(f)]
    {
      if f < m {
        FieldsInOrder(f, m);
      }
      assert Start(f) <= End(f) <= |prev|;
      SliceOfAppendLeft(prev + gap, piece, Start(f), End(f));
      SliceOfAppendLeft(prev, gap, Start(f), End(f));
    }
    assert End(m + 1) == |prev + gap| + |piece|;
    SliceOfAppendRight(prev + gap, piece);
  }

  /** A detail record built from a field list: the inverse of `DetailRecord`. */
  function Encode(fields: seq<Slot>, pad: byte): (block: Bytes)
    requires Encodable(fields)
    ensures |block| == RecordLength
    ensures forall f: nat | IsField(f) :: FieldBytes(block, f) == EncodeSlot(fields, f)
  {
    AllFieldsInRecord();
    var pieces := seq(FieldCount + 1, f requires 0 <= f <= FieldCount => if f == 0 then [] else EncodeSlot(fields, f));
    Lay(pieces, pad, FieldCount)
  }

  /** Round trip: a record written with each count zero-padded to its field's
      width decodes to exactly the field list it was written from. */
  lemma DecodeEncode(fields: seq<Slot>, pad: byte)
    requires Encodable(fields)
    ensures DetailRecord(Encode(fields, pad)) == Ok(fields)
  {
    var block := Encode(fields, pad);
    CountWidths();
    forall f: nat | IsCountField(f)
      ensures ParseInt(FieldBytes(block, f)) == Some(fields[f].value)
    {
      ParsePadded(fields[f].value, Width(f));
    }
    var r := DetailRecord(block);
    assert r.Ok?;
    SameSlots(r.value, fields);
  }
}
