# delstat in Dafny

A model of `delstat.py`, the script that summarises a USPS Address
Information System "delivery statistics" file. The file is a sequence of
309-byte records:

- the first record is a copyright record, and its bytes [19, 24) hold the
  release tag (month and year);
- every later record is a detail record for one carrier route, with 63
  fixed-width fields.

The script decodes each detail record into a 64-slot list. It keeps four
running counters per ZIP code: active residential, active business, and
the two mixed-use counts. It stops at the first read that does not return
a full 309 bytes. Finally it writes `summary_<release>.csv`: a header line,
a fixed dummy line, and one line per ZIP code in ascending byte-string
order.

The model is pure. The input file is a byte sequence, and a run returns the
release tag, the output file name, the final totals, the record count and
the lines written.

| file | module | what it holds |
|---|---|---|
| `wrappers.dfy` | `Wrappers` | `Option` and `Result` |
| `bytes.dfy` | `Bytes` | bytes, Python's clamping slice, ASCII literals, Python 2 byte-string order |
| `integers.dfy` | `Integers` | CPython 2.7 `int()` on a byte string, `str()` of an integer, zero-padded decimals |
| `layout.dfy` | `Layout` | the offsets and widths of the 63 detail fields |
| `records.dfy` | `Records` | `copyrightRecord`, `detailRecord`, and an encoder that inverts `detailRecord` |
| `aggregate.dfy` | `Aggregate` | the per-ZIP counters and `addRecords` |
| `summary.dfy` | `Summary` | the lines of the summary CSV |
| `driver.dfy` | `Driver` | the read loop, the whole run, the "every record counted" loop, and a worked example |

Modelling choices:

- **Slicing.** Python slices clamp, so a short header or block is sliced
  without error. `Bytes.Slice` models this.
- **`int()`.** Python 2 `int()` on a byte string accepts this grammar:
  optional whitespace, an optional sign, optional whitespace, one or more
  ASCII digits, optional whitespace. Anything else raises `ValueError`.
  `Integers.ParseInt` models that grammar and returns `None` where Python
  raises.
- **Decoded records.** A decoded record is a `seq<Slot>` of 64 slots:
  - slot 0 is `Unused`;
  - fields 1-5 and 59-63 are `Text`;
  - fields 6-58 are `Count`.
- **Exceptions** become `Err` values:
  - `ValueError(field, text)` when a count does not parse;
  - `KeyError(zip)` when `addRecords` is given a ZIP code that is not in
    the totals.
- **The read loop.** The loop in the source decodes one block and then
  updates the totals. The model decodes every full block first and then
  folds the results. These behave the same: decoding is pure, and the
  first failing block ends the run with that block's error before
  anything is written.

The model follows the code where the code makes no check:

- the header is not length-checked;
- a short final block is dropped silently, with no warning;
- count fields are not checked to be all digits: space-padded or signed
  ones are accepted as `int()` accepts them, and an all-blank one raises;
- the first record of every ZIP code is not counted (see "Findings").

## Model

| member | source | states |
|---|---|---|
| Bytes.Slice | delstat.py:29 | Python slicing: its length is the clamped range, it is the plain slice when the bounds fit, and each byte comes from the clamped position |
| Bytes.BelowIrreflexive | delstat.py:192 | no byte string sorts before itself |
| Bytes.BelowTransitive | delstat.py:192 | byte-string order is transitive |
| Bytes.BelowTotal | delstat.py:192 | any two different byte strings are ordered one way or the other, so `sorted` has a single answer |
| Integers.ParseInt | delstat.py:48 | an all-digit slice parses to its decimal value; an empty or all-blank slice raises `ValueError` |
| Integers.ParseRejectsStrayByte | delstat.py:48 | a slice holding any byte that is not a digit, whitespace or a sign raises `ValueError` |
| Integers.ParsePadded | delstat.py:48-115 | a count written zero-padded to its field width reads back as itself |
| Integers.ParseDecimal | delstat.py:193 | the decimal text `format` writes for a count reads back as that count |
| Integers.ParseIgnoresPadding | delstat.py:48 | whitespace around a count never changes what `int()` returns |
| Layout.SpanTableA | delstat.py:40-58 | fields 1-16 sit at the byte ranges the decoder slices |
| Layout.SpanTableB | delstat.py:59-80 | fields 17-32 sit at the byte ranges the decoder slices |
| Layout.SpanTableC | delstat.py:81-98 | fields 33-48 sit at the byte ranges the decoder slices, with field 37 at [177, 181) and field 45 at [219, 221) |
| Layout.SpanTableD | delstat.py:99-121 | fields 49-63 sit at the byte ranges the decoder slices, ending at byte 309 |
| Layout.FieldsInOrder | delstat.py:40-121 | fields never overlap and appear in field-number order |
| Layout.CountWidths | delstat.py:48-115 | every count is 5 digits wide, except field 37 (4 digits) and field 45 (2 digits) |
| Layout.SkippedBytesUnread | delstat.py:84-95 | byte 176 and bytes 216-218 lie outside every field |
| Records.CopyrightRecord | delstat.py:25-29 | the release tag is the 5 bytes at [19, 24) of a long enough header, and whatever part of that range a shorter one holds |
| Records.DetailRecord | delstat.py:32-123 | decoding succeeds exactly when every count field parses. On success: 64 slots, slot 0 unused, text fields are the raw field bytes, counts are the parsed values. On failure: the error names the first count field that does not parse, and its text |
| Records.ZipField | delstat.py:41 | the ZIP code of a full record is its raw 5 bytes at [1, 6), leading zeros included |
| Records.IrregularFields | delstat.py:85-95 | field 37 is the value of bytes [177, 181) and field 45 the value of bytes [219, 221) |
| Records.DecodeSeesOnlyFields | delstat.py:37-123 | two blocks whose field slices agree decode to the same result or the same error |
| Records.SkippedBytesIgnored | delstat.py:84-95 | blocks that differ only in byte 176 or bytes 216-218 decode alike |
| Records.DecodeEncode | delstat.py:40-121 | a record written with zero-padded counts decodes to exactly the field list it was written from, with one pad byte in the skipped bytes (any bytes there decode alike, by Records.SkippedBytesIgnored) |
| Aggregate.AddRecords | delstat.py:126-140 | a missing ZIP code raises `KeyError` and changes nothing. Otherwise only that ZIP code's entry changes, gaining fields 18-25, fields 6-13, field 57 and field 58 in its four counters |
| Aggregate.UnreadFieldsIgnored | delstat.py:137-140 | records that agree on the ZIP code and fields 6-13, 18-25, 57 and 58 update the totals identically, so the box counts 14-17 and 26-29 never matter |
| Aggregate.AddTwice | delstat.py:135-140 | adding the same record twice adds its contribution twice: the update is not idempotent |
| Aggregate.AddCommutes | delstat.py:137-140 | adding two records in either order gives the same totals |
| Driver.Accept | delstat.py:162-172 | one loop step: the count goes up by one and the ZIP code joins the keys. A known ZIP code gains the record's contribution, a new one starts at zero, and every other entry is untouched |
| Driver.Fold | delstat.py:159-173 | after the loop the record count is the number of records and the keys are exactly the ZIP codes seen |
| Driver.FeedResults | delstat.py:159-173 | the loop over decoding results fails exactly when one of them failed, and then with the first failure's error; otherwise it is the fold of the decoded records |
| Driver.Feed | delstat.py:159-173 | the loop over full blocks succeeds exactly when every block decodes, and then counts every block; otherwise it fails with the error of the first block that does not decode |
| Driver.FoldTotals | delstat.py:164-170 | as written, each ZIP code's counters plus the contribution of its first record equal the sum over all its records |
| Driver.FoldCounted | delstat.py:164-170 | the loop with every record counted keeps the same record count and the same keys |
| Driver.FoldCountedTotals | delstat.py:164-170 | with every record counted, each ZIP code's counters are the sum over all of its records |
| Driver.FirstRecordDropped | delstat.py:164-170 | the two loops differ, ZIP code by ZIP code, by exactly the contribution of its first record |
| Driver.FeedCounted | delstat.py:159-173 | counting every record fails exactly when the loop as written fails, with the same error, and counts the same blocks |
| Driver.FeedsDiffer | delstat.py:159-170 | over the same blocks, the keys are the ZIP codes of the decoded records, and the two loops differ by each ZIP code's first record |
| Driver.FeedCountedTotals | delstat.py:159-170 | over blocks, counting every record gives each ZIP code the sum over all its records |
| Driver.SameKeys | delstat.py:164-170 | both loops end with the same ZIP codes |
| Driver.FullRun | delstat.py:159 | the loop runs over the leading blocks that are exactly 309 bytes and stops at the first one that is not |
| Driver.Loop | delstat.py:159-173 | the loop succeeds exactly when every block before the first short one decodes, and then counts each of those blocks |
| Driver.Reads | delstat.py:157-173 | the reads after the header are the file's successive 309-byte blocks, the last one short, and a single empty read when the file ends within the header |
| Driver.LoopStopsAtShortBlock | delstat.py:157-173 | the loop stops at the first short block without error, and nothing after that block matters |
| Driver.ReadAt | delstat.py:155-173 | a `read(309)` returns the next 309 bytes of the file, or a short block at its end |
| Driver.DetailBlocks | delstat.py:157-173 | the full detail blocks are the 309-byte slices after the header, one for each whole block after the first |
| Driver.LoopReadsDetailBlocks | delstat.py:157-173 | on a file, the loop consumes exactly the full blocks after the header |
| Driver.Release | delstat.py:155 | the release tag is bytes [19, 24) of the file, or what a shorter file holds of them |
| Driver.OutputName | delstat.py:178 | the summary file name is `summary_`, the release tag and `.csv` |
| Driver.OutputNameInjective | delstat.py:178 | two release tags share a summary file name only when they are equal |
| Driver.Run | delstat.py:154-193 | a run succeeds exactly when the loop over the file's full detail blocks succeeds, and otherwise fails with its error. On success it reports bytes [19, 24) as the release tag, `summary_<release>.csv` as the file name, one record per full detail block, the loop's totals, and the summary lines of those totals |
| Driver.RunOutcome | delstat.py:157-173 | a run succeeds exactly when every full detail block decodes; otherwise it fails with the error of the first block that does not |
| Driver.RunKeys | delstat.py:159-172 | after a successful run the keys are exactly the ZIP codes of the decoded detail blocks |
| Driver.HeaderOnly | delstat.py:154-193 | a file with no full detail block gives no records, no ZIP codes, and only the two fixed lines |
| Driver.OrderMatters | delstat.py:164-170 | as written, two records of one ZIP code with different contributions give different totals in the two orders: only the later one counts |
| Driver.SumForRemove | delstat.py:137-140 | taking one record out of a list takes exactly its share out of its ZIP code's sum |
| Driver.SumForPermutation | delstat.py:137-140 | the sum of a ZIP code's contributions is the same for any order of the records |
| Driver.FoldCountedOrderFree | delstat.py:159-173 | with every record counted, any reordering of the records gives the same record count, keys and totals |
| Driver.FirstRecordDroppedExample | delstat.py:164-170 | a single record with one active business delivery leaves its ZIP code at zero as written, but at one when every record is counted |
| Summary.SortedKeys | delstat.py:192 | the keys are listed once each, in strictly ascending byte-string order |
| Summary.HeaderLine | delstat.py:183 | the header names the three columns `ZIPCODE`, `RESIDENT` and `BUSINESS`, split by its only two commas, and ends with a line break |
| Summary.DummyLine | delstat.py:189 | the dummy line is `dummytext`, which does not parse as a number, a comma, 0, a comma, 0 and a line break |
| Summary.RowLayout | delstat.py:193 | `Summary.Row`: a row is the quoted ZIP code, a comma, the residential total in decimal, a comma, the business total in decimal, and a line break |
| Summary.RowReadsBack | delstat.py:193 | the two numbers in a row parse back as the ZIP code's residential and business totals |
| Summary.SummaryLines | delstat.py:183-193 | the summary is the header line, the dummy line, then one row per ZIP code |
| Summary.ZipRows | delstat.py:192-193 | row `i` is the row of the `i`-th ZIP code in ascending order |
| Summary.RowPerZip | delstat.py:192-193 | every ZIP code has its row |
| Summary.ZipPerRow | delstat.py:192-193 | every row belongs to a ZIP code |
| Summary.NoZipsTwoLines | delstat.py:183-193 | with no ZIP codes only the two fixed lines are written |

## Left out

- Command-line parsing and path handling (`argparse`, `normpath`, `dirname`) at delstat.py:9-22. These are plumbing. `Driver.OutputName` gives the file name without the directory that `os.path.join` puts in front (delstat.py:178).
- The `print` statements (delstat.py:150, 196-198). They are console output only.
- Opening, reading, writing and closing files (delstat.py:154-157, 173, 180, 195):
  - the input file is a byte-sequence parameter;
  - each `read(309)` is a slice of it;
  - the output is the list of lines written.
- Newline translation when writing in text mode (`'w'` on Windows). The lines are given as the program passes them to `write`.
- `Integers.ParseInt` models the CPython 2.7 grammar for byte strings only. Unicode digits and underscores do not arise: the input is a byte string, and Python 2 does not accept underscores. The fallback to `long` for large values does not change the result, since a field is at most 5 bytes.
- `Records.DetailRecord`: its `ValueError` carries the field number as well as the text. Python's message holds only the text. The field number is there so that the contract can say which field failed.
- State after a failure is not modelled. A failing run reports the error, and neither the totals nor an output file exist, matching the uncaught exception ending the script before it writes anything.

## Findings

| source | as written | input that shows it | evidently intended | confidence | as-written member | corrected member |
|---|---|---|---|---|---|---|
| delstat.py:164-170 | a ZIP code seen for the first time gets zero counters, and `addRecords` is not called for that record, so the first record of every ZIP code is never counted | one detail block with ZIP code `00000`, one active business delivery (field 6 = 1) and all other counts 0: its ZIP code ends with counters of zero, so its summary row would read `"00000",0,0` | every record adds to its ZIP code's counters, so the row is `"00000",0,1` | not executed | Driver.FirstRecordDroppedExample | Driver.FoldCountedTotals |
| delstat.py:164-170 | because only a ZIP code's later records are counted, the totals depend on the order of the records in the file | two detail records of ZIP code `00000`, one with one active residential delivery and one with none: in one order the ZIP code ends at one residential delivery, in the other at zero | totals that do not depend on record order, as a per-ZIP sum does not | not executed | Driver.OrderMatters | Driver.FoldCountedOrderFree |
