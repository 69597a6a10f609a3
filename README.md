# tanktools core, modelled in Dafny

tanktools is a set of helpers around Yandex-tank load tests. This project
models the two parts of it that carry logic.

**The phout loader and its statistics** (`tanktools/phout.py`).
- A phout log has one tab-separated record of twelve fields per line.
  `parse_phout` strips each line and stops at the first blank one. It rejects
  a line that does not split into twelve fields, parses the time stamp, keeps
  the record when `start_criteria` holds, and stops after it when
  `stop_criteria` holds.
- Over the records kept:
  - `size` gives the record count;
  - `subset` slices like Python's `iloc`;
  - `get_quantiles` uses pandas' linear interpolation at h = (n − 1)·q;
  - `get_rps` divides the count by the time span;
  - `count_uniq_by_field` counts the `proto_code` values.

**Ammo framing and header rewriting** (`tanktools/har2ammo.py` and `tanktools/pcap2ammo.py`).
- `make_ammo` frames a request for phantom as "length, space, mark, newline, request".
- `delete_headers` removes a known header's lines and its key.
- `add_headers` inserts a new header line before the blank line that ends
  the headers, and files the new header under its whole lower-cased line.
- Both converters rewrite every request this way (deletions first, then
  additions) and frame it. They differ in one point: the HAR converter
  catches the error a malformed spec raises and exits with status 1, while
  the pcap converter lets that error propagate.
- The two source files have the same code for the header functions and
  `make_ammo` (pcap2ammo.py:90-153 and har2ammo.py:100-163). The model has
  one shared module for them.

Files:
- `wrappers.dfy`: `Option` and `Result`.
- `text.dfy`: stripping, splitting and joining, ASCII lower-casing, decimal
  rendering, and the integer and decimal parses that stand in for Python's
  `int()` and `float()`.
- `sorting.dfy`: insertion sort by a key, with its sum and distinctness lemmas.
- `phout.dfy`: the records, the two criteria, the line scan. It has a
  reference definition of the scan's result and a `ParsePhout` method whose
  loop is proved equal to the scan.
- `phout_stats.dfy`: `size`, `subset`, the column cast, quantiles, RPS and
  the response-code table.
- `ammo.dfy`: `make_ammo` and a frame reader. It has `re.sub`-style
  replacement with a count, header-line deletion, and the header functions
  on values. The `Request` class has `DeleteHeaders`/`AddHeaders` methods
  proved against those functions. It also has the per-request step both
  converters share.
- `converters.dfy`: the `Har2Ammo` and `Pcap2Ammo` loops. Each allocates
  a `Request` per message and returns what the run wrote and how it ended.

Quirks of the code that the model keeps as written:
- `stop_criteria` computes the `to_date` test and then overwrites it with
  the `limit` test.
- The field-count error carries (records kept so far) + 1, not the line's
  position in the file.
- `count_uniq_by_field` ignores its `field` argument except as a column name.
- `re.MULTILINE` is passed where `re.sub` expects its count, so at most
  eight blank lines receive a new header.
- The key a new header is filed under is its whole lower-cased line, while
  the key tested is its lower-cased name. So a header is never found by
  its own earlier addition.

## Model

| member | source | states |
|---|---|---|
| Phout.StartCriteria | tanktools/phout.py:79-83 | true without `from_date`; otherwise true exactly when the time is at or after `from_date` |
| Phout.StartIgnoresToDate | tanktools/phout.py:79-83 | changing `to_date` never changes the start criterion |
| Phout.StopCriteria | tanktools/phout.py:61-66 | with a limit, exactly `index >= limit` whatever `to_date` is; with only `to_date`, exactly `time >= to_date`; with neither, false |
| Phout.StopIgnoresFromDate | tanktools/phout.py:61-66 | changing `from_date` never changes the stop criterion |
| Phout.Classify | tanktools/phout.py:111-120 | a line is blank exactly when it strips to nothing; it has the wrong field count exactly when its stripped text has other than eleven tabs, and then carries that text; a parsed line's time is the decimal value of its first field |
| Phout.ClassifyJoinedLine | tanktools/phout.py:114-123 | twelve tab-free cells joined by tabs, with a numeric first cell, classify as the record of those cells |
| Phout.Scan | tanktools/phout.py:110-126 | the loop from the current line on with the records kept so far; its properties are stated by the `Scan…` lemmas below and by `ScanMatchesReference`, which equates it with an independent filter-then-cut definition |
| Phout.Load | tanktools/phout.py:109-126 | a file loads as the scan of its classified lines from no records; `LoadWithoutFlags` and `TrailingBlankLines` characterise it |
| Phout.ParsePhout | tanktools/phout.py:110-126 | the loop's result is the scan of the classified lines from an empty record list |
| Phout.ScanKeepsStarted | tanktools/phout.py:121-123 | records kept earlier stay in front, and every newly kept record meets the start criterion |
| Phout.ScanLimitBound | tanktools/phout.py:123-126 | with limit L, a scan starting below max(L, 1) records keeps at most max(L, 1) |
| Phout.ScanToDateBound | tanktools/phout.py:123-126 | with only `to_date`, every kept record but the last is before `to_date` |
| Phout.ScanStopsAtBlank | tanktools/phout.py:111-113 | whatever follows the first blank line is never examined |
| Phout.ScanAtEnd | tanktools/phout.py:110-113 | a blank last line and the end of the file end the scan alike |
| Phout.TrailingBlankLines | tanktools/phout.py:110-113 | blank lines at the end of a file do not change the load |
| Phout.ScanMatchesReference | tanktools/phout.py:110-126 | when every line before the first blank one is well formed, the result is those lines' records filtered by the start criterion and cut after the first one meeting the stop criterion |
| Phout.ScanIgnoresAfterStop | tanktools/phout.py:121-126 | once a kept record among well-formed lines meets the stop criterion, the result is the kept records cut after it, whatever follows, even a malformed or unparsable line |
| Phout.ScanReachesLine | tanktools/phout.py:110-126 | passing well-formed lines none of whose kept records stops the loop, the scan goes on from the next line with exactly the admitted records added |
| Phout.LoadWithoutFlags | tanktools/phout.py:110-126 | without options a well-formed log loads one record per line before the first blank line, in order |
| Phout.ScanReportsFieldCount | tanktools/phout.py:114-119 | a line with the wrong field count reached before any stop fails the scan with (records kept so far) + 1 and the line's text, even when `from_date` would have dropped it |
| Phout.ScanReportsBadTime | tanktools/phout.py:120-122 | a line whose time field is not a number, reached before any stop, fails the scan with that field, even when `from_date` would have dropped the line |
| Phout.FieldCountNamesLine | tanktools/phout.py:114-119 | without options that number is the line's 1-based position in the file |
| Phout.FieldCountErrorLine | tanktools/phout.py:114-119 | conversely, a field-count error names a line with the wrong field count, all lines before it being well formed and none of the records kept from them meeting the stop criterion, with the number (records kept before it) + 1, no larger than its position |
| PhoutStats.Size | tanktools/phout.py:154-164 | the row count of the dataset; `SubsetWhole`, `GetRps` and `ValueCountsSum` are stated against it |
| PhoutStats.Subset | tanktools/phout.py:179 | a window inside the dataset is the slice from `start` to min(start + offset, size); a start past the end gives nothing; never more than `size` rows |
| PhoutStats.SubsetExact | tanktools/phout.py:179 | a window that fits holds exactly `offset` rows, those from `start` on, in order |
| PhoutStats.SubsetChunks | tanktools/phout.py:179 | consecutive windows concatenate to the window spanning both |
| PhoutStats.SubsetWhole | tanktools/phout.py:154-179 | the window from 0 of length `size` is the whole dataset |
| PhoutStats.SubsetNegativeStart | tanktools/phout.py:179 | a negative start counts from the end, and a window ending exactly at 0 is empty |
| PhoutStats.ColumnValues | tanktools/phout.py:198 | the integer cast succeeds exactly when every cell of the column is an integer, giving each cell's value in row order; otherwise it names a failing cell |
| PhoutStats.Interpolate | tanktools/phout.py:199 | over sorted values the quantile lies between the minimum and the maximum, and it is the order statistic itself when h = (n − 1)·q is a whole number |
| PhoutStats.InterpolateEnds | tanktools/phout.py:199 | q = 0 gives the minimum and q = 1 the maximum |
| PhoutStats.InterpolateMonotone | tanktools/phout.py:199 | a larger q never gives a smaller quantile |
| PhoutStats.QuantilesOf | tanktools/phout.py:199-202 | an error exactly when some q is outside [0, 1]; otherwise one row per q in the given order, undefined for no values, else the interpolation over the sorted values |
| PhoutStats.GetQuantiles | tanktools/phout.py:194-202 | a non-integer cell fails the cast; a result has one row per requested q, or per default q when none is given, in that order, each undefined exactly when the dataset is empty |
| PhoutStats.GetQuantilesOk | tanktools/phout.py:194-202 | with an integer column and valid quantiles the call succeeds and each row interpolates the sorted column |
| PhoutStats.QuantilesOfEmpty | tanktools/phout.py:194-199 | an empty dataset gives the thirteen default quantiles, each undefined |
| PhoutStats.DefaultQuantilesValid | tanktools/phout.py:194-197 | the default list has thirteen quantiles, all in [0, 1] |
| PhoutStats.QuantilesIgnoreOrder | tanktools/phout.py:199 | the order of the rows does not matter to the quantiles |
| PhoutStats.QuantilesFromSorted | tanktools/phout.py:199 | any ascending arrangement of the values is the one the quantiles are read from |
| PhoutStats.MedianExample | tanktools/phout.py:199 | the median of 1, 2, 3, 4, 5 is 3 |
| PhoutStats.SampleLatencyQuantiles | tests/test_phout.py:288-303 | the default quantiles of the sample log's latencies, truncated toward zero, are 4549, 4575, 4699, 4947, 5135, 5240, 5394, 5612, 5744, 5764, 5776, 5780, 5785 |
| PhoutStats.GetRps | tanktools/phout.py:253-264 | an empty dataset and a last time before the first are errors; a span of 0 gives the row count; otherwise the rate times the span is the row count |
| PhoutStats.RpsOfOrderedLog | tanktools/phout.py:253-264 | a non-empty log in time order has a positive rate |
| PhoutStats.RpsUsesEnds | tanktools/phout.py:253-255 | only the first and the last row's times matter |
| PhoutStats.Tally | tanktools/phout.py:278-279 | the grouping behind `value_counts`, built one value at a time; `TallyCorrect` proves it holds each distinct value once with its number of occurrences |
| PhoutStats.ValueCounts | tanktools/phout.py:278-282 | `value_counts()` with its percentages: the tally of the codes sorted by non-increasing count; the `ValueCounts…` lemmas below characterise it fully |
| PhoutStats.TallyCorrect | tanktools/phout.py:278-279 | the tally holds each distinct value once, with its number of occurrences, and covers every value |
| PhoutStats.ValueCountsOrdered | tanktools/phout.py:278-279 | larger counts come first |
| PhoutStats.ValueCountsDistinct | tanktools/phout.py:278-279 | no code has two rows |
| PhoutStats.ValueCountsCounts | tanktools/phout.py:278-282 | each row's count is its code's number of occurrences, and its percent is 100 · count / size |
| PhoutStats.ValueCountsCover | tanktools/phout.py:278-279 | every code has a row |
| PhoutStats.ValueCountsSum | tanktools/phout.py:278-279 | the counts add up to the number of codes |
| PhoutStats.ValueCountsPercents | tanktools/phout.py:280-282 | the percents add up to 100 |
| PhoutStats.CountUniqByField | tanktools/phout.py:278-283 | succeeds exactly when every `proto_code` is an integer, and then the value column is named `field` |
| PhoutStats.CountUniqTable | tanktools/phout.py:278-283 | the table is ordered by non-increasing count, one row per distinct code with its count and percent, counts summing to the size and percents to 100 |
| PhoutStats.CountUniqIgnoresField | tanktools/phout.py:278-279 | the rows are the same whatever `field` is |
| Ammo.MakeAmmo | tanktools/har2ammo.py:159-163 | the frame ends with the request verbatim and is as long as the decimal length, the mark and the request plus two |
| Ammo.MakeAmmoRoundTrip | tanktools/har2ammo.py:159-163 | reading a frame back gives the request and the mark verbatim and leaves what followed |
| Ammo.ReadAllFrames | tanktools/har2ammo.py:84-88 | the frames written for a sequence of requests read back as exactly those requests, in order, with empty marks |
| Ammo.HeaderName | tanktools/har2ammo.py:134-135 | there is a name exactly when the spec holds a ':'; the name is the text before the first one |
| Ammo.ReplaceUpTo | tanktools/har2ammo.py:137-140 | `re.sub` with a plain-text pattern and a count: leftmost, non-overlapping replacements, at most `count` of them; `ReplaceNothing`, `ReplaceFirst` and `ReplaceAtMost` characterise it |
| Ammo.InsertHeaderLine | tanktools/har2ammo.py:137-140 | the text change of one added header: every blank-line match, up to eight, gets the new header line in front of it; the `Insert…` lemmas state where the line goes |
| Ammo.ReplaceNothing | tanktools/har2ammo.py:137-140 | a text without the pattern is left unchanged |
| Ammo.ReplaceFirst | tanktools/har2ammo.py:137-140 | the first occurrence is replaced and the scan goes on after it with one replacement fewer |
| Ammo.ReplaceAtMost | tanktools/har2ammo.py:137-140 | of n back-to-back occurrences only the first `count` are replaced |
| Ammo.InsertIntoNineBlankLines | tanktools/har2ammo.py:137-140 | of nine blank lines only the first eight receive the header |
| Ammo.InsertBeforeBlankLine | tanktools/har2ammo.py:137-140 | with one blank line ending the headers, the new line goes just before it and nothing else changes |
| Ammo.InsertAfterHeaderLines | tanktools/har2ammo.py:137-140 | for a request line and header lines, the blank line and a body without carriage returns, the new header becomes the last header line |
| Ammo.AddRefererExample | tests/test_har2ammo.py:134-161 | adding `Referer: http://domain.com/` to the sample request makes it the last header line |
| Ammo.AddHeader | tanktools/har2ammo.py:134-141 | one spec of `add_headers`: an error without ':', no change for a known name, else the line inserted and the lower-cased line keyed; `AddHeaderCases` and `AddNewHeader` characterise it |
| Ammo.AddAll | tanktools/har2ammo.py:133-145 | `add_headers`: one spec after another, stopping at the first malformed one; `AddAllError` and `AddAllKeepsPrefix` characterise its error and the state it leaves |
| Ammo.AddHeaderCases | tanktools/har2ammo.py:134-144 | a spec fails exactly when it has no ':', with the format message; a known name leaves the request unchanged |
| Ammo.AddAllError | tanktools/har2ammo.py:133-144 | `add_headers` raises exactly when some spec has no ':', with the format message, and the request is then where the specs before the first malformed one take it |
| Ammo.AddAllKeepsPrefix | tanktools/har2ammo.py:133-144 | when `specs[k]` is the first spec without ':', the request is left where the specs before it take it |
| Ammo.AddNewHeader | tanktools/har2ammo.py:136-141 | an unknown name's line goes in before the blank line, the whole lower-cased line becomes a key, and the tested key stays absent |
| Ammo.NameKeyDiffers | tanktools/har2ammo.py:136-141 | the key added is never the key tested |
| Ammo.AddSameHeaderTwice | tanktools/har2ammo.py:136-141 | adding the same new header twice inserts its line twice |
| Ammo.DeleteHeader | tanktools/har2ammo.py:112-117 | one name of `delete_headers`: a known lower-cased name loses its lines and its key, an unknown one changes nothing; `DeleteHeaderCases` characterises it |
| Ammo.DeleteAll | tanktools/har2ammo.py:111-118 | `delete_headers`: one name after another; `DeleteAllDropsKeys` states that no deleted name remains a key |
| Ammo.DeleteHeaderLines | tanktools/har2ammo.py:113-116 | the case-insensitive, line-anchored deletion of every line that starts with the name and has at least one more character before its CRLF; it never lengthens the text, and the `DeleteHeaderLines…` lemmas state that it is idempotent, leaves no matching line, and keeps a text without one |
| Ammo.DeleteHeaderCases | tanktools/har2ammo.py:111-117 | an unknown name changes nothing; a known one loses exactly its key; deleting again changes nothing |
| Ammo.DeleteAllDropsKeys | tanktools/har2ammo.py:111-117 | after `delete_headers` none of the deleted names is a key |
| Ammo.DeleteHeaderLinesIdempotent | tanktools/har2ammo.py:113-116 | removing a header's lines twice removes nothing more |
| Ammo.DeleteHeaderLinesMatchesNone | tanktools/har2ammo.py:113-116 | afterwards no line starts with the name (ignoring case) and ends in CRLF after at least one more character |
| Ammo.DeleteHeaderLinesAbsent | tanktools/har2ammo.py:113-116 | a text none of whose lines starts with the name is unchanged |
| Ammo.DeleteContentLengthExample | tests/test_har2ammo.py:191-218 | deleting `content-length` from the sample request leaves the request line, the `Host` line and the blank line |
| Ammo.Request.DeleteHeaders | tanktools/har2ammo.py:111-118 | the request's new text and headers are `delete_headers` of the old ones |
| Ammo.Request.AddHeaders | tanktools/har2ammo.py:133-145 | the request's new text and headers, and the error returned, are `add_headers` of the old ones; the request keeps the changes made before the error |
| Ammo.Prepare | tanktools/har2ammo.py:85-88 | the per-request step: deletions when any are asked for, then additions when any are asked for; `PrepareError` and `DeleteThenAdd` characterise it |
| Ammo.Convert | tanktools/har2ammo.py:84-89 | the converter loop: each prepared request framed and appended, the first error stopping it; `ConvertAll`, `ConvertFails` and `ConvertRoundTrip` characterise it |
| Ammo.PrepareError | tanktools/har2ammo.py:85-88 | a request fails exactly when some spec to add is malformed, whatever the request |
| Ammo.DeleteThenAdd | tanktools/har2ammo.py:85-88 | a header named for both deletion and addition is replaced: its lines go if its lower-cased name is a known key, then the new line goes in |
| Ammo.ConvertAll | tanktools/har2ammo.py:84-88 | with well-formed specs every request is framed, in order |
| Ammo.ConvertFails | tanktools/har2ammo.py:84-92 | a malformed spec stops the loop at the first request, with the format message |
| Ammo.ConvertRoundTrip | tanktools/har2ammo.py:84-88 | with well-formed specs the ammo reads back as the rewritten requests, in order |
| Har2Ammo.Har2Ammo | tanktools/har2ammo.py:84-97 | the loop's output, status and error text are those of the shared per-request step, with status 1 and "Error: " + message on failure |
| Har2Ammo.Har2AmmoOutcome | tanktools/har2ammo.py:84-97 | status 1 exactly when there is a request and a malformed spec; then nothing is written and the error stream holds the format message; otherwise status 0 and the ammo reads back as the rewritten requests |
| Pcap2Ammo.Pcap2Ammo | tanktools/pcap2ammo.py:78-87 | the loop's output and exit are those of the shared per-request step, the error propagating uncaught |
| Pcap2Ammo.Pcap2AmmoOutcome | tanktools/pcap2ammo.py:78-87 | the run raises exactly when there is a request and a malformed spec, before writing anything; otherwise it returns 0 and the ammo reads back as the rewritten requests |

## Left out

- Reading and writing files, the command line (`parse_args`, `main`,
  `init`), and the `--stats-only` mode with its printing. Also
  `print_quantiles`, `print_http_reponses` and the `parse_phout.py` script.
  All of these are I/O and formatting.
- The `pcaper` readers that yield the requests (`read_har`, `read_pcap`,
  `get_stats`). They are an external library; the converters take the
  requests they yield as a sequence of values.
- The date parsing and normalisation of `from_date`, `to_date` and `limit`
  in tanktools/phout.py:99-106, and the in-place update of the caller's
  options it performs. The options reach the model already numeric.
- Phout.ParsePhout: does not apply the `astype(int)` of the ten integer
  columns at tanktools/phout.py:128-150. Cells stay text, and
  PhoutStats.ColumnValues casts one column when a statistic needs it. A
  non-integer cell therefore fails that statistic instead of the load.
  pandas' resulting column type also depends on its version.
- Phout.Classify: the time is parsed as an exact decimal (sign, digits,
  optional fraction). `float()` also accepts exponents, `inf`, `nan`,
  underscores and surrounding blanks, and it rounds; none of that is
  modelled. Likewise PhoutStats.ColumnValues accepts a sign and ASCII
  digits only, where `int()` accepts more.
- The text of the load errors (tanktools/phout.py:116-119 and `float()`'s
  own message) is not rendered. `LoadError` carries what that text is built
  from: the line number and the stripped line, or the failing time field.
- PhoutStats.GetRps: the rate is an exact real rather than a float
  division. The negative-span error carries the two times, not their `%f`
  rendering.
- PhoutStats.GetQuantiles: does not overwrite the column in place
  (tanktools/phout.py:198), which is the one change the source makes to the
  frame. The model returns the quantiles and leaves the dataset as it was.
  The `fillna(0)` has nothing to fill, since the model's cells are never
  missing. Only the ten integer columns are accepted, not `time` or `tag`.
- PhoutStats.ValueCounts: rows with equal counts come out in an order
  pandas does not promise. The model promises none either.
- Ammo.DeleteHeaderLines: the header name is taken as plain text. A name
  holding regular-expression metacharacters or a line break, and non-ASCII
  case folding, are not modelled.
- Ammo.InsertHeaderLine: the spec is taken as plain text. Backslash escapes
  in the replacement are not modelled.

## Findings

None. Where the source behaves unexpectedly (the count passed to `re.sub`,
the key a new header is filed under), the model keeps and states that
behaviour rather than correcting it.
