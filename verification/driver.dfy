/**
 The top-level pass over a delivery statistics file: the copyright block,
 then detail blocks read 309 bytes at a time for as long as full blocks
 come, each decoded and folded into the per-ZIP totals, and finally the
 summary lines.
 */
module Driver {
  import opened Wrappers
  import opened Bytes
  import opened Layout
  import opened Integers
  import opened Records
  import opened Aggregate
  import opened Summary

  /** What the loop carries from one block to the next. */
  datatype State = State(zipcodes: Totals, recordCount: nat)

  const Initial: State := State(map[], 0)

  /** A decoding result for each block; the successful ones are well formed. */
  type Decoding = Result<seq<Slot>, Error>

  predicate WellDecoded(results: seq<Decoding>) {
    forall i | 0 <= i < |results| :: results[i].Ok? ==> WellFormed(results[i].value)
  }

  predicate AllOk(results: seq<Decoding>) {
    forall i | 0 <= i < |results| :: results[i].Ok?
  }

  predicate AllWellFormed(recs: seq<seq<Slot>>) {
    forall i | 0 <= i < |recs| :: WellFormed(recs[i])
  }

  /** The decoder applied to every block. */
  function Decodings(blocks: seq<Bytes>): (results: seq<Decoding>)
    ensures |results| == |blocks| && WellDecoded(results)
    ensures forall i | 0 <= i < |blocks| :: results[i] == DetailRecord(blocks[i])
  {
    seq(|blocks|, i requires 0 <= i < |blocks| => DetailRecord(blocks[i]))
  }

  /** The records of results that all succeeded. */
  function Successes(results: seq<Decoding>): (recs: seq<seq<Slot>>)
    requires WellDecoded(results) && AllOk(results)
    ensures |recs| == |results| && AllWellFormed(recs)
    ensures forall i | 0 <= i < |results| :: recs[i] == results[i].value
  {
    seq(|results|, i requires 0 <= i < |results| && results[i].Ok? => results[i].value)
  }

  /** The position of the first failed result. */
  function FirstErr(results: seq<Decoding>): (i: nat)
    requires !AllOk(results)
    ensures i < |results| && results[i].Err?
    ensures forall j | 0 <= j < i :: results[j].Ok?
  {
    if results[0].Err? then 0 else 1 + FirstErr(results[1..])
  }

  /** The ZIP codes of a list of records. */
  function ZipsOf(recs: seq<seq<Slot>>): set<Bytes>
    requires AllWellFormed(recs)
  {
    set i | 0 <= i < |recs| :: ZipOf(recs[i])
  }

  // ---------------------------------------------------------------------
  // The loop as written
  // ---------------------------------------------------------------------

  /** The loop body for one decoded record. A ZIP code already present gets
      the record added to its counters (so `addRecords` finds its key and never
      raises); a ZIP code seen for the first time only gets zero counters, and
      that record is not added. */
  function Accept(st: State, fields: seq<Slot>): (r: State)
    requires WellFormed(fields)
    ensures r.recordCount == st.recordCount + 1
    ensures r.zipcodes.Keys == st.zipcodes.Keys + {ZipOf(fields)}
    ensures r.zipcodes[ZipOf(fields)]
         == if ZipOf(fields) in st.zipcodes then Plus(st.zipcodes[ZipOf(fields)], Contribution(fields)) else Zero
    ensures forall y | y in st.zipcodes && y != ZipOf(fields) :: r.zipcodes[y] == st.zipcodes[y]
  {
    var zipcode := ZipOf(fields);
    if zipcode in st.zipcodes then State(AddRecords(st.zipcodes, fields).value, st.recordCount + 1)
    else State(st.zipcodes[zipcode := Zero], st.recordCount + 1)
  }

  /** The loop folded over decoded records. */
  function Fold(recs: seq<seq<Slot>>): (st: State)
    requires AllWellFormed(recs)
    ensures st.recordCount == |recs|
    ensures st.zipcodes.Keys == ZipsOf(recs)
  {
    if |recs| == 0 then Initial
    else
      var prefix, last := recs[..|recs| - 1], recs[|recs| - 1];
      ZipsOfAppend(prefix, last);
      assert prefix + [last] == recs;
      Accept(Fold(prefix), last)
  }

  /** The loop over the decoding results of the full blocks, one block after
      the other: the first failure ends it with its error; if none fails, it
      is the fold over the decoded records. */
  function FeedResults(results: seq<Decoding>): (r: Result<State, Error>)
    requires WellDecoded(results)
    ensures r.Ok? <==> AllOk(results)
    ensures r.Ok? ==> r.value == Fold(Successes(results))
    ensures r.Err? ==> r.error == results[FirstErr(results)].error
    decreases |results|
  {
    if |results| == 0 then Ok(Initial)
    else
      var prefix := results[..|results| - 1];
      PrefixFacts(results);
      var st :- FeedResults(prefix);
      match results[|results| - 1]
      case Ok(fields) => Ok(Accept(st, fields))
      case Err(e) => Err(e)
  }

  /** How the facts about a list of results follow from those about all but
      its last one. */
  lemma PrefixFacts(results: seq<Decoding>)
    requires WellDecoded(results) && |results| > 0
    ensures var prefix, last := results[..|results| - 1], results[|results| - 1];
      && WellDecoded(prefix)
      && (AllOk(results) <==> AllOk(prefix) && last.Ok?)
      && (AllOk(results) ==> Successes(results) == Successes(prefix) + [last.value])
      && (!AllOk(prefix) ==> FirstErr(results) == FirstErr(prefix))
      && (AllOk(prefix) && last.Err? ==> FirstErr(results) == |results| - 1)
  {
    var n := |results|;
    var prefix := results[..n - 1];
    assert forall i | 0 <= i < n - 1 :: prefix[i] == results[i];
    if AllOk(results) {
      assert Successes(results) == Successes(prefix) + [results[n - 1].value];
    }
    if !AllOk(prefix) {
      FirstErrUnique(results, FirstErr(prefix));
    }
    if AllOk(prefix) && results[n - 1].Err? {
      FirstErrUnique(results, n - 1);
    }
  }

  /** The first failure is the only one with no failure before it. */
  lemma FirstErrUnique(results: seq<Decoding>, i: nat)
    requires i < |results| && results[i].Err?
    requires forall j | 0 <= j < i :: results[j].Ok?
    ensures !AllOk(results) && FirstErr(results) == i
  {
  }

  lemma ZipsOfAppend(recs: seq<seq<Slot>>, r: seq<Slot>)
    requires AllWellFormed(recs) && WellFormed(r)
    ensures AllWellFormed(recs + [r])
    ensures ZipsOf(recs + [r]) == ZipsOf(recs) + {ZipOf(r)}
  {
    var all := recs + [r];
    assert forall i | 0 <= i < |recs| :: all[i] == recs[i];
    assert all[|recs|] == r;
  }

  /** The loop over full detail blocks, each decoded by `detailRecord`. */
  function Feed(blocks: seq<Bytes>): (r: Result<State, Error>)
    ensures r.Ok? <==> forall i | 0 <= i < |blocks| :: DetailRecord(blocks[i]).Ok?
    ensures r.Ok? ==> r.value.recordCount == |blocks|
    ensures r.Err? ==> exists i | 0 <= i < |blocks| ::
      && DetailRecord(blocks[i]).Err? && r.error == DetailRecord(blocks[i]).error
      && forall j | 0 <= j < i :: DetailRecord(blocks[j]).Ok?
  {
    var results := Decodings(blocks);
    var r := FeedResults(results);
    assert r.Ok? <==> AllOk(results);
    if r.Err? then
      var i := FirstErr(results);
      assert DetailRecord(blocks[i]).Err? && r.error == DetailRecord(blocks[i]).error;
      r
    else r
  }

  // ---------------------------------------------------------------------
  // What the totals add up to
  // ---------------------------------------------------------------------

  lemma PlusSwap(x: Agg, y: Agg, w: Agg)
    ensures Plus(Plus(x, y), w) == Plus(Plus(x, w), y)
    ensures Plus(x, Zero) == x && Plus(Zero, x) == x
  {
  }

  /** What record `r` adds to the sum for ZIP code `z`. */
  function Share(r: seq<Slot>, z: Bytes): Agg
    requires WellFormed(r)
  {
    if ZipOf(r) == z then Contribution(r) else Zero
  }

  /** The sum of the contributions of every record of ZIP code `z`. */
  function SumFor(recs: seq<seq<Slot>>, z: Bytes): Agg
    requires AllWellFormed(recs)
  {
    if |recs| == 0 then Zero
    else
      var last := recs[|recs| - 1];
      Plus(SumFor(recs[..|recs| - 1], z), Share(last, z))
  }

  /** The position of the first record of ZIP code `z`. */
  function FirstIndex(recs: seq<seq<Slot>>, z: Bytes): (i: nat)
    requires AllWellFormed(recs) && z in ZipsOf(recs)
    ensures i < |recs| && ZipOf(recs[i]) == z
    ensures forall j | 0 <= j < i :: ZipOf(recs[j]) != z
  {
    if ZipOf(recs[0]) == z then 0
    else
      var rest := recs[1..];
      assert forall j | 0 <= j < |rest| :: rest[j] == recs[j + 1];
      assert z in ZipsOf(rest) by {
        var k :| 0 <= k < |recs| && ZipOf(recs[k]) == z;
        assert ZipOf(rest[k - 1]) == z;
      }
      1 + FirstIndex(rest, z)
  }

  lemma FirstIndexUnique(recs: seq<seq<Slot>>, z: Bytes, i: nat)
    requires AllWellFormed(recs) && i < |recs| && ZipOf(recs[i]) == z
    requires forall j | 0 <= j < i :: ZipOf(recs[j]) != z
    ensures z in ZipsOf(recs) && FirstIndex(recs, z) == i
  {
  }

  lemma {:induction false} SumForAbsent(recs: seq<seq<Slot>>, z: Bytes)
    requires AllWellFormed(recs) && z !in ZipsOf(recs)
    ensures SumFor(recs, z) == Zero
    decreases |recs|
  {
    if |recs| > 0 {
      var prefix := recs[..|recs| - 1];
      ZipsOfAppend(prefix, recs[|recs| - 1]);
      assert prefix + [recs[|recs| - 1]] == recs;
      SumForAbsent(prefix, z);
    }
  }

  /** How the reference definitions extend by one record. */
  lemma AppendFacts(recs: seq<seq<Slot>>, z: Bytes)
    requires AllWellFormed(recs) && |recs| > 0
    ensures var prefix, last := recs[..|recs| - 1], recs[|recs| - 1];
      && AllWellFormed(prefix)
      && ZipsOf(recs) == ZipsOf(prefix) + {ZipOf(last)}
      && (z in ZipsOf(prefix) ==> FirstIndex(recs, z) == FirstIndex(prefix, z))
      && (z !in ZipsOf(prefix) && z == ZipOf(last) ==> FirstIndex(recs, z) == |recs| - 1)
      && (z !in ZipsOf(prefix) ==> SumFor(prefix, z) == Zero)
  {
    var prefix, last := recs[..|recs| - 1], recs[|recs| - 1];
    PrefixWellFormed(recs);
    ZipsOfAppend(prefix, last);
    assert prefix + [last] == recs;
    if z in ZipsOf(prefix) {
      FirstIndexKept(recs, z);
    } else {
      SumForAbsent(prefix, z);
      if z == ZipOf(last) {
        FirstIndexUnique(recs, z, |recs| - 1);
      }
    }
  }

  lemma PrefixWellFormed(recs: seq<seq<Slot>>)
    requires AllWellFormed(recs) && |recs| > 0
    ensures AllWellFormed(recs[..|recs| - 1])
    ensures forall j | 0 <= j < |recs| - 1 :: recs[..|recs| - 1][j] == recs[j]
  {
  }

  lemma FirstIndexKept(recs: seq<seq<Slot>>, z: Bytes)
    requires AllWellFormed(recs) && |recs| > 0
    requires AllWellFormed(recs[..|recs| - 1]) && z in ZipsOf(recs[..|recs| - 1])
    ensures z in ZipsOf(recs) && FirstIndex(recs, z) == FirstIndex(recs[..|recs| - 1], z)
  {
    var prefix := recs[..|recs| - 1];
    var i := FirstIndex(prefix, z);
    assert recs[i] == prefix[i];
    assert forall j | 0 <= j < i :: recs[j] == prefix[j];
    FirstIndexUnique(recs, z, i);
  }

  /** The totals as written: for every ZIP code, its counters plus the
      contribution of its first record equal the sum over all its records.
      The first record of each ZIP code is the one left out. */
  lemma {:induction false} FoldTotals(recs: seq<seq<Slot>>)
    requires AllWellFormed(recs)
    ensures var totals := Fold(recs).zipcodes;
      forall z | z in totals :: Plus(totals[z], Contribution(recs[FirstIndex(recs, z)])) == SumFor(recs, z)
    decreases |recs|
  {
    if |recs| > 0 {
      var prefix := recs[..|recs| - 1];
      FoldTotals(prefix);
      forall z | z in Fold(recs).zipcodes
        ensures Plus(Fold(recs).zipcodes[z], Contribution(recs[FirstIndex(recs, z)])) == SumFor(recs, z)
      {
        FoldTotalsStep(recs, z);
      }
    }
  }

  lemma FoldTotalsStep(recs: seq<seq<Slot>>, z: Bytes)
    requires AllWellFormed(recs) && |recs| > 0 && z in Fold(recs).zipcodes
    requires var prefix := recs[..|recs| - 1];
      && AllWellFormed(prefix)
      && (z in Fold(prefix).zipcodes ==>
            Plus(Fold(prefix).zipcodes[z], Contribution(prefix[FirstIndex(prefix, z)])) == SumFor(prefix, z))
    ensures Plus(Fold(recs).zipcodes[z], Contribution(recs[FirstIndex(recs, z)])) == SumFor(recs, z)
  {
    var prefix, last := recs[..|recs| - 1], recs[|recs| - 1];
    AppendFacts(recs, z);
    var before, after := Fold(prefix).zipcodes, Fold(recs).zipcodes;
    assert Fold(recs) == Accept(Fold(prefix), last);
    var added := if ZipOf(last) == z then Contribution(last) else Zero;
    assert SumFor(recs, z) == Plus(SumFor(prefix, z), added);
    if z in before {
      var first := Contribution(prefix[FirstIndex(prefix, z)]);
      assert recs[FirstIndex(recs, z)] == prefix[FirstIndex(prefix, z)];
      assert after[z] == Plus(before[z], added);
      PlusSwap(before[z], added, first);
    } else {
      assert after[z] == Zero && added == Contribution(last);
      assert recs[FirstIndex(recs, z)] == last;
    }
  }

  // ---------------------------------------------------------------------
  // The loop as evidently intended: every record counted
  // ---------------------------------------------------------------------

  /** The loop body with every record counted: a ZIP code seen for the first
      time gets zero counters and then has the record added to them. */
  function AcceptCounted(st: State, fields: seq<Slot>): (r: State)
    requires WellFormed(fields)
    ensures r.recordCount == st.recordCount + 1
    ensures r.zipcodes.Keys == st.zipcodes.Keys + {ZipOf(fields)}
    ensures r.zipcodes[ZipOf(fields)]
         == Plus(if ZipOf(fields) in st.zipcodes then st.zipcodes[ZipOf(fields)] else Zero, Contribution(fields))
    ensures forall y | y in st.zipcodes && y != ZipOf(fields) :: r.zipcodes[y] == st.zipcodes[y]
  {
    var zipcode := ZipOf(fields);
    var zipcodes := if zipcode in st.zipcodes then st.zipcodes else st.zipcodes[zipcode := Zero];
    State(AddRecords(zipcodes, fields).value, st.recordCount + 1)
  }

  function FoldCounted(recs: seq<seq<Slot>>): (st: State)
    requires AllWellFormed(recs)
    ensures st.recordCount == |recs|
    ensures st.zipcodes.Keys == ZipsOf(recs)
  {
    if |recs| == 0 then Initial
    else
      var prefix, last := recs[..|recs| - 1], recs[|recs| - 1];
      ZipsOfAppend(prefix, last);
      assert prefix + [last] == recs;
      AcceptCounted(FoldCounted(prefix), last)
  }

  /** With every record counted, each ZIP code's counters are the sum over
      all of its records. */
  lemma {:induction false} FoldCountedTotals(recs: seq<seq<Slot>>)
    requires AllWellFormed(recs)
    ensures var totals := FoldCounted(recs).zipcodes;
      forall z | z in totals :: totals[z] == SumFor(recs, z)
    decreases |recs|
  {
    if |recs| > 0 {
      var prefix := recs[..|recs| - 1];
      FoldCountedTotals(prefix);
      forall z | z in FoldCounted(recs).zipcodes
        ensures FoldCounted(recs).zipcodes[z] == SumFor(recs, z)
      {
        FoldCountedStep(recs, z);
      }
    }
  }

  lemma FoldCountedStep(recs: seq<seq<Slot>>, z: Bytes)
    requires AllWellFormed(recs) && |recs| > 0 && z in FoldCounted(recs).zipcodes
    requires var prefix := recs[..|recs| - 1];
      && AllWellFormed(prefix)
      && (z in FoldCounted(prefix).zipcodes ==> FoldCounted(prefix).zipcodes[z] == SumFor(prefix, z))
    ensures FoldCounted(recs).zipcodes[z] == SumFor(recs, z)
  {
    var prefix, last := recs[..|recs| - 1], recs[|recs| - 1];
    AppendFacts(recs, z);
    var before, after := FoldCounted(prefix).zipcodes, FoldCounted(recs).zipcodes;
    assert FoldCounted(recs) == AcceptCounted(FoldCounted(prefix), last);
    var added := if ZipOf(last) == z then Contribution(last) else Zero;
    assert SumFor(recs, z) == Plus(SumFor(prefix, z), added);
    if z in before {
      if z == ZipOf(last) {
        assert after[z] == Plus(before[z], added);
      } else {
        assert after[z] == before[z];
        PlusSwap(before[z], Zero, Zero);
      }
    } else {
      assert after[z] == Plus(Zero, Contribution(last));
      PlusSwap(Zero, Zero, Contribution(last));
    }
  }

  /** The two loops differ by exactly the first record of each ZIP code. */
  lemma FirstRecordDropped(recs: seq<seq<Slot>>, z: Bytes)
    requires AllWellFormed(recs) && z in ZipsOf(recs)
    ensures z in Fold(recs).zipcodes && z in FoldCounted(recs).zipcodes
    ensures FoldCounted(recs).zipcodes[z]
         == Plus(Fold(recs).zipcodes[z], Contribution(recs[FirstIndex(recs, z)]))
  {
    FoldTotals(recs);
    FoldCountedTotals(recs);
  }

  /** The loop over full blocks with every record counted. */
  function FeedCounted(blocks: seq<Bytes>): (r: Result<State, Error>)
    ensures r.Ok? <==> Feed(blocks).Ok?
    ensures r.Err? ==> r.error == Feed(blocks).error
    ensures r.Ok? ==> r.value.recordCount == |blocks|
  {
    var results := Decodings(blocks);
    if AllOk(results) then Ok(FoldCounted(Successes(results)))
    else Err(results[FirstErr(results)].error)
  }

  /** On the same blocks, the two loops differ by exactly the first record of
      each ZIP code. */
  lemma FeedsDiffer(blocks: seq<Bytes>, z: Bytes)
    requires Feed(blocks).Ok?
    ensures var recs := Successes(Decodings(blocks));
      z in Feed(blocks).value.zipcodes <==> z in ZipsOf(recs)
    ensures var recs := Successes(Decodings(blocks));
      z in ZipsOf(recs) ==>
        && z in FeedCounted(blocks).value.zipcodes
        && FeedCounted(blocks).value.zipcodes[z]
           == Plus(Feed(blocks).value.zipcodes[z], Contribution(recs[FirstIndex(recs, z)]))
  {
    var recs := Successes(Decodings(blocks));
    if z in ZipsOf(recs) {
      FirstRecordDropped(recs, z);
    }
  }

  /** With every record counted, each ZIP code's counters are the sum over
      all of the records of the blocks. */
  lemma FeedCountedTotals(blocks: seq<Bytes>, z: Bytes)
    requires FeedCounted(blocks).Ok? && z in FeedCounted(blocks).value.zipcodes
    ensures FeedCounted(blocks).value.zipcodes[z] == SumFor(Successes(Decodings(blocks)), z)
  {
    FoldCountedTotals(Successes(Decodings(blocks)));
  }

  /** Both loops see the same ZIP codes. */
  lemma SameKeys(blocks: seq<Bytes>)
    requires Feed(blocks).Ok?
    ensures FeedCounted(blocks).value.zipcodes.Keys == Feed(blocks).value.zipcodes.Keys
  {
  }

  // ---------------------------------------------------------------------
  // Record order
  // ---------------------------------------------------------------------

  /** As written, the totals depend on the order of the records: of two
      records of one ZIP code only the later one is counted. */
  lemma OrderMatters(x: seq<Slot>, y: seq<Slot>)
    requires WellFormed(x) && WellFormed(y) && ZipOf(x) == ZipOf(y)
    requires Contribution(x) != Contribution(y)
    ensures Fold([x, y]).zipcodes[ZipOf(x)] == Contribution(y)
    ensures Fold([y, x]).zipcodes[ZipOf(x)] == Contribution(x)
    ensures Fold([x, y]) != Fold([y, x])
  {
    assert [x, y][..1] == [x] && [y, x][..1] == [y];
    assert [x][..0] == [] && [y][..0] == [];
    PlusSwap(Contribution(x), Zero, Zero);
    PlusSwap(Contribution(y), Zero, Zero);
  }

  /** Taking one record out of a list takes its share out of the sum. */
  lemma {:induction false} SumForRemove(recs: seq<seq<Slot>>, z: Bytes, i: nat)
    requires AllWellFormed(recs) && i < |recs|
    ensures AllWellFormed(recs[..i] + recs[i + 1..])
    ensures SumFor(recs, z) == Plus(SumFor(recs[..i] + recs[i + 1..], z), Share(recs[i], z))
    decreases |recs|
  {
    var n, rest := |recs|, recs[..i] + recs[i + 1..];
    assert AllWellFormed(rest) by {
      forall j | 0 <= j < |rest|
        ensures WellFormed(rest[j])
      {
        assert rest[j] == recs[if j < i then j else j + 1];
      }
    }
    if i == n - 1 {
      assert rest == recs[..n - 1];
    } else {
      var prefix, last := recs[..n - 1], recs[n - 1];
      SumForRemove(prefix, z, i);
      var shorter := prefix[..i] + prefix[i + 1..];
      assert rest == shorter + [last];
      assert rest[..|rest| - 1] == shorter;
      assert prefix[i] == recs[i];
      PlusSwap(SumFor(shorter, z), Share(recs[i], z), Share(last, z));
    }
  }

  /** The sum for a ZIP code does not depend on the order of the records. */
  lemma {:induction false} SumForPermutation(recs: seq<seq<Slot>>, perm: seq<seq<Slot>>, z: Bytes)
    requires AllWellFormed(recs) && AllWellFormed(perm) && multiset(recs) == multiset(perm)
    ensures SumFor(recs, z) == SumFor(perm, z)
    decreases |recs|
  {
    assert |recs| == |multiset(recs)| == |multiset(perm)| == |perm|;
    if |recs| > 0 {
      var n := |recs|;
      var prefix, last := recs[..n - 1], recs[n - 1];
      assert recs == prefix + [last];
      assert last in multiset(perm);
      var j :| 0 <= j < |perm| && perm[j] == last;
      var rest := perm[..j] + perm[j + 1..];
      SumForRemove(perm, z, j);
      RemoveMatching(recs, perm, j);
      SumForPermutation(prefix, rest, z);
    }
  }

  /** Dropping the last element of one list and a matching element of a
      permutation of it leaves permutations of each other. */
  lemma RemoveMatching<T>(xs: seq<T>, ys: seq<T>, j: nat)
    requires |xs| > 0 && j < |ys| && ys[j] == xs[|xs| - 1] && multiset(xs) == multiset(ys)
    ensures multiset(xs[..|xs| - 1]) == multiset(ys[..j] + ys[j + 1..])
  {
    var last, front, back := xs[|xs| - 1], ys[..j], ys[j + 1..];
    assert xs == xs[..|xs| - 1] + [last];
    assert ys == front + [last] + back;
    var a, b := multiset(xs[..|xs| - 1]), multiset(front + back);
    assert a + multiset{last} == b + multiset{last};
    assert a == (a + multiset{last}) - multiset{last};
    assert b == (b + multiset{last}) - multiset{last};
  }

  /** Records in any order show the same ZIP codes. */
  lemma ZipsOfPermutation(recs: seq<seq<Slot>>, perm: seq<seq<Slot>>)
    requires AllWellFormed(recs) && AllWellFormed(perm) && multiset(recs) == multiset(perm)
    ensures ZipsOf(recs) == ZipsOf(perm)
  {
    forall z | z in ZipsOf(recs)
      ensures z in ZipsOf(perm)
    {
      var i :| 0 <= i < |recs| && ZipOf(recs[i]) == z;
      assert recs[i] in multiset(perm);
      var j :| 0 <= j < |perm| && perm[j] == recs[i];
    }
    forall z | z in ZipsOf(perm)
      ensures z in ZipsOf(recs)
    {
      var j :| 0 <= j < |perm| && ZipOf(perm[j]) == z;
      assert perm[j] in multiset(recs);
      var i :| 0 <= i < |recs| && recs[i] == perm[j];
    }
  }

  /** With every record counted, the order of the records does not matter:
      any permutation of them gives the same final state. */
  lemma FoldCountedOrderFree(recs: seq<seq<Slot>>, perm: seq<seq<Slot>>)
    requires AllWellFormed(recs) && AllWellFormed(perm) && multiset(recs) == multiset(perm)
    ensures FoldCounted(recs) == FoldCounted(perm)
  {
    var a, b := FoldCounted(recs), FoldCounted(perm);
    assert |recs| == |multiset(recs)| == |multiset(perm)| == |perm|;
    ZipsOfPermutation(recs, perm);
    FoldCountedTotals(recs);
    FoldCountedTotals(perm);
    forall z | z in a.zipcodes
      ensures a.zipcodes[z] == b.zipcodes[z]
    {
      SumForPermutation(recs, perm, z);
    }
    assert a.zipcodes == b.zipcodes;
  }

  // ---------------------------------------------------------------------
  // The file
  // ---------------------------------------------------------------------

  /** How many blocks at the front are full 309-byte blocks: the loop runs
      while `len(record) == 309`. */
  function FullRun(blocks: seq<Bytes>): (n: nat)
    ensures n <= |blocks|
    ensures forall i | 0 <= i < n :: |blocks[i]| == RecordLength
    ensures n < |blocks| ==> |blocks[n]| != RecordLength
  {
    if |blocks| == 0 || |blocks[0]| != RecordLength then 0
    else
      var n := FullRun(blocks[1..]);
      assert forall i | 1 <= i <= n :: blocks[i] == blocks[1..][i - 1];
      1 + n
  }

  lemma FullRunUnique(blocks: seq<Bytes>, n: nat)
    requires n < |blocks| && |blocks[n]| != RecordLength
    requires forall i | 0 <= i < n :: |blocks[i]| == RecordLength
    ensures FullRun(blocks) == n
  {
  }

  /** The detail loop over the chunks that follow the header. */
  function Loop(blocks: seq<Bytes>): (r: Result<State, Error>)
    ensures r.Ok? <==> forall i | 0 <= i < FullRun(blocks) :: DetailRecord(blocks[i]).Ok?
    ensures r.Ok? ==> r.value.recordCount == FullRun(blocks)
  {
    var consumed := blocks[..FullRun(blocks)];
    assert forall i | 0 <= i < |consumed| :: consumed[i] == blocks[i];
    Feed(consumed)
  }

  /** The loop consumes blocks up to the first one that is not 309 bytes long
      and stops there without error; nothing after that block matters. */
  lemma LoopStopsAtShortBlock(blocks: seq<Bytes>, n: nat, rest: seq<Bytes>)
    requires n < |blocks| && |blocks[n]| != RecordLength
    requires forall i | 0 <= i < n :: |blocks[i]| == RecordLength
    ensures Loop(blocks) == Feed(blocks[..n])
    ensures Loop(blocks[..n + 1] + rest) == Loop(blocks)
  {
    FullRunUnique(blocks, n);
    var other := blocks[..n + 1] + rest;
    assert forall i | 0 <= i <= n :: other[i] == blocks[i];
    FullRunUnique(other, n);
    assert other[..n] == blocks[..n];
  }

  /** The k-th `read(309)` on the file: the next 309 bytes, fewer at the end
      of the file, none past it. */
  function ReadAt(file: Bytes, k: nat): (block: Bytes)
    ensures RecordLength * (k + 1) <= |file| ==> block == file[RecordLength * k..RecordLength * (k + 1)]
    ensures RecordLength * (k + 1) > |file| ==> |block| < RecordLength
  {
    Slice(file, RecordLength * k, RecordLength * (k + 1))
  }

  /** The k-th read after the header. */
  function AfterHeader(file: Bytes, k: nat): Bytes {
    ReadAt(file, k + 1)
  }

  /** The reads that follow the header, up to and including the first one
      that comes back short (empty when the file ends within the header). */
  function Reads(file: Bytes): (chunks: seq<Bytes>)
    ensures |chunks| == if |file| < RecordLength then 1 else |file| / RecordLength
    ensures forall k | 0 <= k < |chunks| - 1 :: chunks[k] == file[RecordLength * (k + 1)..RecordLength * (k + 2)]
    ensures |chunks[|chunks| - 1]| < RecordLength
    ensures |file| < RecordLength ==> chunks == [[]]
  {
    var n := if |file| < RecordLength then 1 else |file| / RecordLength;
    var chunks := seq(n, k requires 0 <= k < n => AfterHeader(file, k));
    assert RecordLength * (n + 1) > |file|;
    chunks
  }

  /** Everything one run produces: the release tag, the name of the summary
      file, the final totals, the record count and the lines written. */
  datatype Report = Report(release: Bytes, outputName: Bytes, zipcodes: Totals, recordCount: nat, lines: seq<Bytes>)

  /** The name of the summary file for a release tag, `summary_<release>.csv`:
      the tag sits between an 8-byte prefix and a 4-byte suffix. */
  function OutputName(release: Bytes): (name: Bytes)
    ensures |name| == |release| + 12
    ensures name[8..8 + |release|] == release
    ensures name[..8] == Ascii("summary_") && name[|name| - 4..] == Ascii(".csv")
  {
    var prefix, suffix := Ascii("summary_"), Ascii(".csv");
    SliceMiddle(prefix, release, suffix);
    prefix + release + suffix
  }

  /** Different release tags never share a summary file name. */
  lemma OutputNameInjective(a: Bytes, b: Bytes)
    ensures OutputName(a) == OutputName(b) <==> a == b
  {
  }

  function Finish(release: Bytes, st: State): Report {
    Report(release, OutputName(release), st.zipcodes, st.recordCount, SummaryLines(st.zipcodes))
  }

  /** The release tag, taken from the first read of the file: bytes [19, 24)
      of the file, or what a shorter file holds of them. */
  function Release(file: Bytes): (release: Bytes)
    ensures release == Slice(file, 19, 24)
    ensures |file| >= 24 ==> release == file[19..24]
  {
    assert ReadAt(file, 0) == Slice(file, 0, RecordLength);
    HeaderSlice(file);
    CopyrightRecord(ReadAt(file, 0))
  }

  /** One run over a whole file, as written. It fails exactly when the loop
      over the full detail blocks fails, with the same error. Otherwise it
      reports the release tag in bytes [19, 24) of the file, the summary file
      it names, every full detail block counted, the loop's final totals and
      their summary lines. */
  function Run(file: Bytes): (r: Result<Report, Error>)
    ensures r.Ok? <==> Feed(DetailBlocks(file)).Ok?
    ensures r.Err? ==> r.error == Feed(DetailBlocks(file)).error
    ensures r.Ok? ==> r.value.release == Slice(file, 19, 24)
    ensures r.Ok? ==> r.value.outputName == OutputName(Slice(file, 19, 24))
    ensures r.Ok? ==> r.value.recordCount == DetailCount(file)
    ensures r.Ok? ==> r.value.zipcodes == Feed(DetailBlocks(file)).value.zipcodes
    ensures r.Ok? ==> r.value.lines == SummaryLines(r.value.zipcodes)
  {
    LoopReadsDetailBlocks(file);
    var st :- Loop(Reads(file));
    Ok(Finish(Release(file), st))
  }

  /** The number of full detail blocks in a file: all its 309-byte blocks
      but the header, and none when the file is shorter than one block. */
  function DetailCount(file: Bytes): nat {
    if |file| < RecordLength then 0 else |file| / RecordLength - 1
  }

  /** The full detail blocks of a file. */
  function DetailBlocks(file: Bytes): (blocks: seq<Bytes>)
    ensures |blocks| == DetailCount(file)
    ensures forall k | 0 <= k < |blocks| ::
      blocks[k] == file[RecordLength * (k + 1)..RecordLength * (k + 2)]
  {
    seq(DetailCount(file), k requires 0 <= k < DetailCount(file) => AfterHeader(file, k))
  }

  /** The loop reads exactly the full detail blocks: it stops at the read
      that comes back short, which is the last one. */
  lemma LoopReadsDetailBlocks(file: Bytes)
    ensures FullRun(Reads(file)) == DetailCount(file)
    ensures Loop(Reads(file)) == Feed(DetailBlocks(file))
  {
    var chunks := Reads(file);
    var n := DetailCount(file);
    if |file| >= RecordLength {
      assert |chunks[n]| < RecordLength by {
        assert RecordLength * (n + 2) > |file|;
      }
      forall k | 0 <= k < n
        ensures |chunks[k]| == RecordLength
      {
        assert RecordLength * (k + 2) <= |file|;
      }
      FullRunUnique(chunks, n);
    }
    assert chunks[..n] == DetailBlocks(file);
  }

  /** Slicing [19, 24) out of the first 309 bytes is slicing it out of the file. */
  lemma HeaderSlice(file: Bytes)
    ensures Slice(Slice(file, 0, RecordLength), 19, 24) == Slice(file, 19, 24)
  {
  }

  /** A run fails exactly when one of the full detail blocks does not decode,
      and then with the error of the first such block. */
  lemma RunOutcome(file: Bytes)
    ensures var blocks := DetailBlocks(file);
      Run(file).Ok? <==> forall i | 0 <= i < |blocks| :: DetailRecord(blocks[i]).Ok?
    ensures var blocks := DetailBlocks(file);
      Run(file).Err? ==> exists i | 0 <= i < |blocks| ::
        && DetailRecord(blocks[i]).Err? && Run(file).error == DetailRecord(blocks[i]).error
        && forall j | 0 <= j < i :: DetailRecord(blocks[j]).Ok?
  {
    var blocks := DetailBlocks(file);
    var fed := Feed(blocks);
    assert Run(file).Ok? <==> fed.Ok?;
    assert Run(file).Err? ==> Run(file).error == fed.error;
  }

  /** A successful run has a key for exactly the ZIP codes of the decoded
      detail blocks. */
  lemma RunKeys(file: Bytes)
    ensures Run(file).Ok? ==>
      Run(file).value.zipcodes.Keys == ZipsOf(Successes(Decodings(DetailBlocks(file))))
  {
    var blocks := DetailBlocks(file);
    if Run(file).Ok? {
      FeedKeys(blocks);
    }
  }

  /** After the loop over full blocks, the keys are the ZIP codes of the
      decoded records. */
  lemma FeedKeys(blocks: seq<Bytes>)
    requires Feed(blocks).Ok?
    ensures Feed(blocks).value.zipcodes.Keys == ZipsOf(Successes(Decodings(blocks)))
  {
  }

  /** A file holding only a header (or less) yields no records, no ZIP codes
      and just the two fixed lines. */
  lemma HeaderOnly(file: Bytes)
    requires |file| < 2 * RecordLength
    ensures Run(file).Ok?
    ensures Run(file).value.recordCount == 0 && Run(file).value.zipcodes == map[]
    ensures Run(file).value.lines == [HeaderLine(), DummyLine()]
  {
    LoopReadsDetailBlocks(file);
    NoZipsTwoLines();
  }

  /** A detail record whose only non-zero count is one active business
      delivery (field 6), with ZIP code "00000". */
  function SampleFields(): (fields: seq<Slot>)
    ensures Encodable(fields)
  {
    seq(FieldCount + 1, f requires 0 <= f <= FieldCount =>
      if f == 0 then Unused
      else if IsCountField(f) then Count(if f == 6 then 1 else 0)
      else Text(seq(Width(f), _ => DigitZero)))
  }

  lemma SampleContribution()
    ensures ZipOf(SampleFields()) == [DigitZero, DigitZero, DigitZero, DigitZero, DigitZero]
    ensures Contribution(SampleFields()) == Agg(0, 1, 0, 0)
  {
    var fields := SampleFields();
    assert forall f | 7 <= f <= 58 :: fields[f].value == 0;
  }

  lemma SampleBlock()
    ensures DetailRecord(Encode(SampleFields(), DigitZero)) == Ok(SampleFields())
  {
    DecodeEncode(SampleFields(), DigitZero);
  }

  lemma FeedSingle(block: Bytes)
    requires DetailRecord(block).Ok?
    ensures Feed([block]) == Ok(Accept(Initial, DetailRecord(block).value))
    ensures FeedCounted([block]) == Ok(AcceptCounted(Initial, DetailRecord(block).value))
  {
    var d := DetailRecord(block);
    assert Decodings([block]) == [d];
    SingleResult(d);
  }

  /** Feeding one successful decoding accepts its record into the initial state. */
  lemma SingleResult(d: Decoding)
    requires d.Ok? && WellFormed(d.value)
    ensures FeedResults([d]) == Ok(Accept(Initial, d.value))
    ensures AllOk([d]) && Successes([d]) == [d.value]
    ensures FoldCounted([d.value]) == AcceptCounted(Initial, d.value)
  {
    var results := [d];
    PrefixFacts(results);
    assert results[..0] == [];
    var recs := Successes(results);
    assert recs == [d.value];
    assert recs[..0] == [];
  }

  /** One block whose record adds `c` to its ZIP code: as written the ZIP
      code ends with zero counters, counting every record it ends with `c`. */
  lemma DroppedFor(block: Bytes, fields: seq<Slot>, c: Agg)
    requires WellFormed(fields) && DetailRecord(block) == Ok(fields) && Contribution(fields) == c
    ensures Feed([block]).Ok? && FeedCounted([block]).Ok?
    ensures ZipOf(fields) in Feed([block]).value.zipcodes
    ensures Feed([block]).value.zipcodes[ZipOf(fields)] == Zero
    ensures FeedCounted([block]).value.zipcodes[ZipOf(fields)] == c
  {
    FeedSingle(block);
    FirstAccepted(fields);
  }

  /** Into the initial state, the loop as written records a ZIP code with
      zero counters, while counting every record gives it the record's share. */
  lemma FirstAccepted(fields: seq<Slot>)
    requires WellFormed(fields)
    ensures ZipOf(fields) in Accept(Initial, fields).zipcodes
    ensures Accept(Initial, fields).zipcodes[ZipOf(fields)] == Zero
    ensures AcceptCounted(Initial, fields).zipcodes[ZipOf(fields)] == Contribution(fields)
  {
  }

  /** A single detail record shows the difference: as written its ZIP code
      ends with zero counters, while counting every record gives it the one
      business delivery. */
  lemma FirstRecordDroppedExample()
    ensures var block := Encode(SampleFields(), DigitZero);
      var z := ZipOf(SampleFields());
      && Feed([block]).Ok? && FeedCounted([block]).Ok?
      && z in Feed([block]).value.zipcodes
      && Feed([block]).value.zipcodes[z] == Zero
      && FeedCounted([block]).value.zipcodes[z] == Agg(0, 1, 0, 0)
  {
    SampleBlock();
    SampleContribution();
    DroppedFor(Encode(SampleFields(), DigitZero), SampleFields(), Agg(0, 1, 0, 0));
  }
}
