/**
 The per-ZIP accumulator: four running totals kept for every ZIP code, and
 the update that adds one decoded detail record to the totals of its ZIP.
 */
module Aggregate {
  import opened Wrappers
  import opened Bytes
  import opened Layout
  import opened Records

  /** The four counters kept for one ZIP code. */
  datatype Agg = Agg(resActive: int, busActive: int, mixedBusRes: int, mixedResBus: int)

  /** The counters a newly seen ZIP code starts with. */
  const Zero: Agg := Agg(0, 0, 0, 0)

  function Plus(x: Agg, y: Agg): Agg {
    Agg(x.resActive + y.resActive, x.busActive + y.busActive,
        x.mixedBusRes + y.mixedBusRes, x.mixedResBus + y.mixedResBus)
  }

  /** The totals of every ZIP code seen so far. */
  type Totals = map<Bytes, Agg>

  /** The sum of count fields lo .. hi-1 of a decoded record. */
  function SumCounts(fields: seq<Slot>, lo: nat, hi: nat): int
    requires WellFormed(fields) && 6 <= lo <= hi <= 59
    decreases hi - lo
  {
    if lo == hi then 0 else fields[lo].value + SumCounts(fields, lo + 1, hi)
  }

  /** What one record adds to its ZIP code's counters: active residential
      deliveries (fields 18-25), active business deliveries (fields 6-13) and
      the two mixed-use counts (fields 57 and 58). */
  function Contribution(fields: seq<Slot>): Agg
    requires WellFormed(fields)
  {
    Agg(SumCounts(fields, 18, 26), SumCounts(fields, 6, 14), fields[57].value, fields[58].value)
  }

  /** Adds a record to the counters of its ZIP code, which must already have
      an entry; a missing entry raises a `KeyError` before anything changes. */
  function AddRecords(zipcodes: Totals, fields: seq<Slot>): (r: Result<Totals, Error>)
    requires WellFormed(fields)
    ensures r.Err? <==> ZipOf(fields) !in zipcodes
    ensures r.Err? ==> r.error == KeyError(ZipOf(fields))
    ensures r.Ok? ==> r.value.Keys == zipcodes.Keys
    ensures r.Ok? ==> r.value[ZipOf(fields)] == Plus(zipcodes[ZipOf(fields)], Contribution(fields))
    ensures r.Ok? ==> forall z | z in zipcodes && z != ZipOf(fields) :: r.value[z] == zipcodes[z]
  {
    var zipcode := ZipOf(fields);
    if zipcode !in zipcodes then Err(KeyError(zipcode))
    else
      var t := zipcodes[zipcode];
      Ok(zipcodes[zipcode := Agg(
        t.resActive + (fields[18].value + fields[19].value + fields[20].value + fields[21].value
                       + fields[22].value + fields[23].value + fields[24].value + fields[25].value),
        t.busActive + (fields[6].value + fields[7].value + fields[8].value + fields[9].value
                       + fields[10].value + fields[11].value + fields[12].value + fields[13].value),
        t.mixedBusRes + fields[57].value,
        t.mixedResBus + fields[58].value)])
  }

  /** Two records agree on everything the accumulator reads: the ZIP code,
      fields 6-13, fields 18-25 and fields 57-58. */
  predicate SameReadFields(x: seq<Slot>, y: seq<Slot>)
    requires WellFormed(x) && WellFormed(y)
  {
    && ZipOf(x) == ZipOf(y)
    && (forall f: nat | 6 <= f < 14 :: x[f].value == y[f].value)
    && (forall f: nat | 18 <= f < 26 :: x[f].value == y[f].value)
    && x[57].value == y[57].value
    && x[58].value == y[58].value
  }

  lemma {:induction false} SumCountsAlike(x: seq<Slot>, y: seq<Slot>, lo: nat, hi: nat)
    requires WellFormed(x) && WellFormed(y) && 6 <= lo <= hi <= 59
    requires forall f: nat | lo <= f < hi :: x[f].value == y[f].value
    ensures SumCounts(x, lo, hi) == SumCounts(y, lo, hi)
    decreases hi - lo
  {
    if lo < hi {
      SumCountsAlike(x, y, lo + 1, hi);
    }
  }

  /** The accumulator reads nothing but the ZIP code and fields 6-13, 18-25,
      57 and 58: in particular the box counts in fields 14-17 and 26-29 never
      reach the totals. */
  lemma UnreadFieldsIgnored(zipcodes: Totals, x: seq<Slot>, y: seq<Slot>)
    requires WellFormed(x) && WellFormed(y) && SameReadFields(x, y)
    ensures AddRecords(zipcodes, x) == AddRecords(zipcodes, y)
  {
    SumCountsAlike(x, y, 6, 14);
    SumCountsAlike(x, y, 18, 26);
  }

  /** Adding the same record twice counts it twice: the update is not idempotent. */
  lemma AddTwice(zipcodes: Totals, fields: seq<Slot>)
    requires WellFormed(fields) && ZipOf(fields) in zipcodes
    ensures AddRecords(zipcodes, fields).Ok?
    ensures AddRecords(AddRecords(zipcodes, fields).value, fields).Ok?
    ensures AddRecords(AddRecords(zipcodes, fields).value, fields).value[ZipOf(fields)]
         == Plus(zipcodes[ZipOf(fields)], Plus(Contribution(fields), Contribution(fields)))
  {
  }

  /** The order in which two records are added does not change the totals. */
  lemma AddCommutes(zipcodes: Totals, x: seq<Slot>, y: seq<Slot>)
    requires WellFormed(x) && WellFormed(y)
    requires ZipOf(x) in zipcodes && ZipOf(y) in zipcodes
    ensures AddRecords(zipcodes, x).Ok? && AddRecords(zipcodes, y).Ok?
    ensures AddRecords(AddRecords(zipcodes, x).value, y)
         == AddRecords(AddRecords(zipcodes, y).value, x)
  {
    var xy := AddRecords(AddRecords(zipcodes, x).value, y).value;
    var yx := AddRecords(AddRecords(zipcodes, y).value, x).value;
    assert xy.Keys == yx.Keys;
    forall z | z in xy
      ensures xy[z] == yx[z]
    {
      var cx := if z == ZipOf(x) then Contribution(x) else Zero;
      var cy := if z == ZipOf(y) then Contribution(y) else Zero;
      assert xy[z] == Plus(Plus(zipcodes[z], cx), cy);
      assert yx[z] == Plus(Plus(zipcodes[z], cy), cx);
    }
    assert xy == yx;
  }
}
