/**
 The summary CSV: a header line, a fixed line of dummy values that fixes the
 column types for the GIS tool that reads the file, then one line per ZIP
 code in ascending byte-string order giving its active residential and
 active business delivery counts.
 */
module Summary {
  import opened Wrappers
  import opened Bytes
  import opened Integers
  import opened Aggregate

  /** `m` is the smallest element of `s` in byte-string order. */
  predicate IsLeast(m: Bytes, s: set<Bytes>) {
    m in s && forall k | k in s :: k == m || Below(m, k)
  }

  lemma LeastExists(s: set<Bytes>)
    requires s != {}
    ensures exists m :: IsLeast(m, s)
    decreases |s|
  {
    var x :| x in s;
    var rest := s - {x};
    if rest == {} {
      assert s == {x};
      assert IsLeast(x, s);
    } else {
      LeastExists(rest);
      var m :| IsLeast(m, rest);
      BelowTotal(x, m);
      if Below(x, m) {
        forall k | k in s
          ensures k == x || Below(x, k)
        {
          if k != x && k != m {
            BelowTransitive(x, m, k);
          }
        }
        assert IsLeast(x, s);
      } else {
        assert IsLeast(m, s);
      }
    }
  }

  lemma LeastUnique(s: set<Bytes>)
    ensures forall m, n | IsLeast(m, s) && IsLeast(n, s) :: m == n
  {
    forall m, n | IsLeast(m, s) && IsLeast(n, s)
      ensures m == n
    {
      if m != n {
        BelowAsymmetric(m, n);
      }
    }
  }

  /** The elements of `s` in strictly ascending byte-string order, as
      Python's `sorted` lists the keys of a dictionary. */
  function SortedKeys(s: set<Bytes>): (r: seq<Bytes>)
    ensures |r| == |s|
    ensures forall k :: k in r <==> k in s
    ensures forall i, j | 0 <= i < j < |r| :: Below(r[i], r[j])
    decreases s
  {
    if s == {} then []
    else
      LeastExists(s);
      LeastUnique(s);
      var m :| IsLeast(m, s);
      var rest := SortedKeys(s - {m});
      assert forall j | 0 <= j < |rest| :: Below(m, rest[j]);
      [m] + rest
  }

  const Quote: byte := 34
  const Comma: byte := 44
  const Newline: byte := 10

  /** The first line of the summary file: three column names, split by the
      only two commas in the line, and a line break. */
  function HeaderLine(): (line: Bytes)
    ensures |line| == 26 && line[25] == Newline
    ensures forall i | 0 <= i < |line| :: line[i] == Comma <==> i == 7 || i == 16
    ensures line[..7] == Ascii("ZIPCODE") && line[8..16] == Ascii("RESIDENT") && line[17..25] == Ascii("BUSINESS")
  {
    var zip, res, bus := Ascii("ZIPCODE"), Ascii("RESIDENT"), Ascii("BUSINESS");
    var line := zip + [Comma] + res + [Comma] + bus + [Newline];
    assert line[..7] == zip && line[8..16] == res && line[17..25] == bus;
    NoComma("ZIPCODE");
    NoComma("RESIDENT");
    NoComma("BUSINESS");
    forall i | 0 <= i < |line|
      ensures line[i] == Comma <==> i == 7 || i == 16
    {
      if i < 7 {
        assert line[i] == zip[i];
      } else if 7 < i < 16 {
        assert line[i] == res[i - 8];
      } else if 16 < i < 25 {
        assert line[i] == bus[i - 17];
      }
    }
    line
  }

  /** A column name in capitals holds no comma. */
  lemma NoComma(name: string)
    requires forall k | 0 <= k < |name| :: 'A' <= name[k] <= 'Z'
    ensures forall k | 0 <= k < |name| :: Ascii(name)[k] != Comma
  {
  }

  /** The dummy second line of the summary file. It fixes the column types
      for the tool that reads the file: the first column holds text that is
      not a number, the other two hold the integer 0. */
  function DummyLine(): (line: Bytes)
    ensures |line| == 14 && line[9] == Comma && line[11] == Comma && line[13] == Newline
    ensures line[..9] == Ascii("dummytext") && ParseInt(line[..9]) == None
    ensures ParseInt(line[10..11]) == Some(0) && ParseInt(line[12..13]) == Some(0)
  {
    var line := Ascii("dummytext,0,0\n");
    ParseRejectsStrayByte(line[..9], 0);
    ParseDecimal(0);
    assert line[10..11] == Decimal(0) && line[12..13] == Decimal(0);
    line
  }

  /** `"<zip>",<ResActive>,<BusActive>` and a line break. */
  function Row(zip: Bytes, totals: Agg): Bytes {
    [Quote] + zip + [Quote, Comma] + Decimal(totals.resActive) + [Comma] + Decimal(totals.busActive) + [Newline]
  }

  /** Where the pieces of a row sit. */
  lemma RowShape(zip: Bytes, res: Bytes, bus: Bytes, row: Bytes)
    requires row == [Quote] + zip + [Quote, Comma] + res + [Comma] + bus + [Newline]
    ensures var n, d := |zip|, |res|;
      && |row| == n + 5 + d + |bus|
      && row[0] == Quote && row[1..n + 1] == zip && row[n + 1] == Quote && row[n + 2] == Comma
      && row[n + 3..n + 3 + d] == res
      && row[n + 3 + d] == Comma
      && row[n + 4 + d..|row| - 1] == bus
      && row[|row| - 1] == Newline
  {
    var before, after := [Quote] + zip + [Quote, Comma], [Comma] + bus + [Newline];
    assert row == before + res + after;
    SliceMiddle(before, res, after);
    var front := before + res + [Comma];
    assert row == front + bus + [Newline];
    SliceMiddle(front, bus, [Newline]);
    SliceMiddle([Quote], zip, [Quote, Comma] + res + [Comma] + bus + [Newline]);
  }

  /** A row is the quoted ZIP code, a comma, the residential total in
      decimal, a comma, the business total in decimal and a line break. */
  lemma RowLayout(zip: Bytes, totals: Agg)
    ensures var row, n, d := Row(zip, totals), |zip|, |Decimal(totals.resActive)|;
      && |row| == n + 5 + d + |Decimal(totals.busActive)|
      && row[0] == Quote && row[1..n + 1] == zip && row[n + 1] == Quote && row[n + 2] == Comma
      && row[n + 3..n + 3 + d] == Decimal(totals.resActive)
      && row[n + 3 + d] == Comma
      && row[n + 4 + d..|row| - 1] == Decimal(totals.busActive)
      && row[|row| - 1] == Newline
  {
    RowShape(zip, Decimal(totals.resActive), Decimal(totals.busActive), Row(zip, totals));
  }

  /** A row can be read back: the two counts after the quoted ZIP code parse
      as the residential and business totals. */
  lemma RowReadsBack(zip: Bytes, totals: Agg)
    ensures var row, n, d := Row(zip, totals), |zip|, |Decimal(totals.resActive)|;
      ParseInt(row[n + 3..n + 3 + d]) == Some(totals.resActive)
    ensures var row, n, d := Row(zip, totals), |zip|, |Decimal(totals.resActive)|;
      ParseInt(row[n + 4 + d..|row| - 1]) == Some(totals.busActive)
  {
    RowLayout(zip, totals);
    ParseDecimal(totals.resActive);
    ParseDecimal(totals.busActive);
  }

  /** The lines of the summary file for the final totals: the two fixed
      lines, then one row per ZIP code in ascending order of ZIP code. */
  function SummaryLines(zipcodes: Totals): (lines: seq<Bytes>)
    ensures |lines| == |zipcodes| + 2
    ensures lines[0] == HeaderLine() && lines[1] == DummyLine()
    ensures lines[2..] == ZipRows(zipcodes)
  {
    [HeaderLine(), DummyLine()] + ZipRows(zipcodes)
  }

  /** One row per ZIP code, in ascending order of ZIP code. */
  function ZipRows(zipcodes: Totals): (rows: seq<Bytes>)
    ensures |rows| == |zipcodes|
    ensures forall i | 0 <= i < |rows| ::
      var keys := SortedKeys(zipcodes.Keys); rows[i] == Row(keys[i], zipcodes[keys[i]])
  {
    var keys := SortedKeys(zipcodes.Keys);
    seq(|keys|, i requires 0 <= i < |keys| && keys[i] in zipcodes => Row(keys[i], zipcodes[keys[i]]))
  }

  /** Every ZIP code gets a row. */
  lemma RowPerZip(zipcodes: Totals, z: Bytes)
    requires z in zipcodes
    ensures Row(z, zipcodes[z]) in ZipRows(zipcodes)
  {
    var rows, keys := ZipRows(zipcodes), SortedKeys(zipcodes.Keys);
    var i :| 0 <= i < |keys| && keys[i] == z;
    assert rows[i] == Row(z, zipcodes[z]);
  }

  /** Every row belongs to a ZIP code. */
  lemma ZipPerRow(zipcodes: Totals, i: nat)
    requires i < |zipcodes|
    ensures exists z | z in zipcodes :: ZipRows(zipcodes)[i] == Row(z, zipcodes[z])
  {
    var keys := SortedKeys(zipcodes.Keys);
    assert keys[i] in zipcodes;
  }

  /** With no detail records only the two fixed lines are written. */
  lemma NoZipsTwoLines()
    ensures SummaryLines(map[]) == [HeaderLine(), DummyLine()]
  {
  }
}
