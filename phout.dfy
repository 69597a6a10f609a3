/**
 * Loading a Yandex-tank "phout" result log: one tab-separated record of
 * twelve fields per line, kept or dropped by the start criterion and cut off
 * by the stop criterion.
 */
module Phout {
  import opened Wrappers
  import opened Text

  /** Number of fields of a phout line (the length of PHOUT_FIELDS). */
  const FieldCount: nat := 12

  /**
   * One kept line. `time` is the float-parsed first field; the other eleven
   * fields are kept as the text the line carried.
   */
  datatype Record = Record(
    time: real,
    tag: string,
    intervalReal: string,
    connectTime: string,
    sendTime: string,
    latency: string,
    receiveTime: string,
    intervalEvent: string,
    sizeOut: string,
    sizeIn: string,
    netCode: string,
    protoCode: string)

  /** The load options, already normalised to epoch seconds and an integer count. */
  datatype Flags = Flags(fromDate: Option<real>, toDate: Option<real>, limit: Option<int>)

  const NoFlags: Flags := Flags(None, None, None)

  datatype LoadError =
    | FieldCountError(line: nat, text: string)  // "Incorrect fields count in line <line>: "<text>""
    | TimeNotNumeric(text: string)              // float() of the first field fails

  // ---------------------------------------------------------------------
  // start_criteria and stop_criteria
  // ---------------------------------------------------------------------

  /** `start_criteria(date, flags)`: keep a record unless it is before `from_date`. */
  function StartCriteria(time: real, flags: Flags): (start: bool)
    ensures flags.fromDate.None? ==> start
    ensures flags.fromDate.Some? ==> (start <==> time >= flags.fromDate.value)
  {
    var result := true;
    if flags.fromDate.Some? then time >= flags.fromDate.value else result
  }

  /**
   * `stop_criteria(index, date, flags)`: the `to_date` test is computed first
   * and then overwritten by the `limit` test when a limit is set.
   */
  function StopCriteria(index: int, time: real, flags: Flags): (stop: bool)
    ensures flags.limit.Some? ==> (stop <==> index >= flags.limit.value)
    ensures flags.limit.None? && flags.toDate.Some? ==> (stop <==> time >= flags.toDate.value)
    ensures flags.limit.None? && flags.toDate.None? ==> !stop
  {
    var result := false;
    var afterToDate := if flags.toDate.Some? then time >= flags.toDate.value else result;
    if flags.limit.Some? then index >= flags.limit.value else afterToDate
  }

  /** `to_date` never affects the start criterion. */
  lemma StartIgnoresToDate(time: real, flags: Flags, toDate: Option<real>)
    ensures StartCriteria(time, flags.(toDate := toDate)) == StartCriteria(time, flags)
  {
  }

  /** `from_date` never affects the stop criterion. */
  lemma StopIgnoresFromDate(index: int, time: real, flags: Flags, fromDate: Option<real>)
    ensures StopCriteria(index, time, flags.(fromDate := fromDate)) == StopCriteria(index, time, flags)
  {
  }

  // ---------------------------------------------------------------------
  // One line
  // ---------------------------------------------------------------------

  function FromFields(time: real, elems: seq<string>): (r: Record)
    requires |elems| == FieldCount
    ensures r.time == time && r.tag == elems[1] && r.protoCode == elems[11]
  {
    Record(time, elems[1], elems[2], elems[3], elems[4], elems[5], elems[6],
           elems[7], elems[8], elems[9], elems[10], elems[11])
  }

  /** What one line of the file is to the scan. */
  datatype Line =
    | Blank                      // empty after stripping: ends the scan
    | WrongCount(text: string)  // stripped text without exactly twelve tab-separated fields
    | BadTime(text: string)     // twelve fields, but the first is not a number
    | Parsed(rec: Record)

  /** Strip a line, split it on tabs, check the field count and parse the time. */
  function Classify(raw: string): (l: Line)
    ensures l == Blank <==> Strip(raw) == []
    ensures l.WrongCount? <==> Strip(raw) != [] && Occurrences(Strip(raw), TAB) != FieldCount - 1
    ensures l.WrongCount? ==> l.text == Strip(raw)
    ensures l.Parsed? ==> ParseDecimal(Split(Strip(raw), TAB)[0]) == Some(l.rec.time)
  {
    var line := Strip(raw);
    if line == [] then Blank
    else
      var elems := Split(line, TAB);
      if |elems| != FieldCount then WrongCount(line)
      else
        match ParseDecimal(elems[0])
        case None => BadTime(elems[0])
        case Some(t) => Parsed(FromFields(t, elems))
  }

  /** Twelve tab-free cells joined by tabs classify as the record they spell. */
  lemma ClassifyJoinedLine(cells: seq<string>, time: real)
    requires |cells| == FieldCount
    requires forall k :: 0 <= k < |cells| ==> TAB !in cells[k]
    requires ParseDecimal(cells[0]) == Some(time)
    requires Strip(Join(cells, TAB)) == Join(cells, TAB) != []
    ensures Classify(Join(cells, TAB)) == Parsed(FromFields(time, cells))
  {
    SplitJoin(cells, TAB);
  }

  function Classified(raw: seq<string>): (ls: seq<Line>)
    ensures |ls| == |raw|
    ensures forall k :: 0 <= k < |raw| ==> ls[k] == Classify(raw[k])
  {
    seq(|raw|, k requires 0 <= k < |raw| => Classify(raw[k]))
  }

  // ---------------------------------------------------------------------
  // The scan of parse_phout
  // ---------------------------------------------------------------------

  /**
   * The loop of `parse_phout` from the current line on, `data` being the
   * records kept so far (its length is the loop's `index`).
   */
  function Scan(lines: seq<Line>, flags: Flags, data: seq<Record>): Result<seq<Record>, LoadError>
    decreases |lines|
  {
    if lines == [] then Ok(data)
    else
      match lines[0]
      case Blank => Ok(data)
      case WrongCount(text) => Err(FieldCountError(|data| + 1, text))
      case BadTime(text) => Err(TimeNotNumeric(text))
      case Parsed(rec) =>
        if !StartCriteria(rec.time, flags) then Scan(lines[1..], flags, data)
        else if StopCriteria(|data| + 1, rec.time, flags) then Ok(data + [rec])
        else Scan(lines[1..], flags, data + [rec])
  }

  /** Loading a file: the scan of its classified lines from an empty record list. */
  function Load(raw: seq<string>, flags: Flags): Result<seq<Record>, LoadError> {
    Scan(Classified(raw), flags, [])
  }

  /** `parse_phout(input_file, flags)` over the lines of the file, without the column casts. */
  method ParsePhout(raw: seq<string>, flags: Flags) returns (result: Result<seq<Record>, LoadError>)
    ensures result == Load(raw, flags)
  {
    ghost var lines := Classified(raw);
    var data: seq<Record> := [];
    var index := 0;
    for i := 0 to |raw|
      invariant index == |data|
      invariant Scan(lines[i..], flags, data) == Scan(lines, flags, [])
    {
      assert lines[i..][0] == Classify(raw[i]) && lines[i..][1..] == lines[i + 1..];
      var line := Strip(raw[i]);
      if line == [] {
        break;
      }
      var elems := Split(line, TAB);
      if |elems| != FieldCount {
        return Err(FieldCountError(index + 1, line));
      }
      var time := ParseDecimal(elems[0]);
      if time.None? {
        return Err(TimeNotNumeric(elems[0]));
      }
      if !StartCriteria(time.value, flags) {
        continue;
      }
      data := data + [FromFields(time.value, elems)];
      index := index + 1;
      if StopCriteria(index, time.value, flags) {
        return Ok(data);
      }
    }
    return Ok(data);
  }

  // ---------------------------------------------------------------------
  // Properties of the scan
  // ---------------------------------------------------------------------

  /** The records kept so far are never dropped, and every newly kept record meets the start criterion. */
  lemma {:induction false} ScanKeepsStarted(lines: seq<Line>, flags: Flags, data: seq<Record>)
    requires Scan(lines, flags, data).Ok?
    ensures var out := Scan(lines, flags, data).value;
      |data| <= |out| && out[..|data|] == data &&
      forall k :: |data| <= k < |out| ==> StartCriteria(out[k].time, flags)
    decreases |lines|
  {
    if lines != [] && lines[0].Parsed? {
      var rec := lines[0].rec;
      if !StartCriteria(rec.time, flags) {
        ScanKeepsStarted(lines[1..], flags, data);
      } else if !StopCriteria(|data| + 1, rec.time, flags) {
        ScanKeepsStarted(lines[1..], flags, data + [rec]);
        var out := Scan(lines, flags, data).value;
        assert out[..|data| + 1] == data + [rec];
        assert out[..|data| + 1][..|data|] == out[..|data|];
        assert out[|data|] == (data + [rec])[|data|];
      }
    }
  }

  /** With `limit` L, at most max(L, 1) records are kept. */
  lemma {:induction false} ScanLimitBound(lines: seq<Line>, flags: Flags, data: seq<Record>)
    requires flags.limit.Some?
    requires |data| < if flags.limit.value < 1 then 1 else flags.limit.value
    requires Scan(lines, flags, data).Ok?
    ensures |Scan(lines, flags, data).value| <= if flags.limit.value < 1 then 1 else flags.limit.value
    decreases |lines|
  {
    if lines != [] && lines[0].Parsed? {
      var rec := lines[0].rec;
      if !StartCriteria(rec.time, flags) {
        ScanLimitBound(lines[1..], flags, data);
      } else if !StopCriteria(|data| + 1, rec.time, flags) {
        ScanLimitBound(lines[1..], flags, data + [rec]);
      }
    }
  }

  /** With only `to_date` set, every kept record but the last is before `to_date`. */
  lemma {:induction false} ScanToDateBound(lines: seq<Line>, flags: Flags, data: seq<Record>)
    requires flags.limit.None? && flags.toDate.Some?
    requires forall k :: 0 <= k < |data| ==> data[k].time < flags.toDate.value
    requires Scan(lines, flags, data).Ok?
    ensures var out := Scan(lines, flags, data).value;
      forall k :: 0 <= k < |out| - 1 ==> out[k].time < flags.toDate.value
    decreases |lines|
  {
    if lines != [] && lines[0].Parsed? {
      var rec := lines[0].rec;
      if !StartCriteria(rec.time, flags) {
        ScanToDateBound(lines[1..], flags, data);
      } else if !StopCriteria(|data| + 1, rec.time, flags) {
        ScanToDateBound(lines[1..], flags, data + [rec]);
      }
    }
  }

  /** Scanning ends at the first blank line: what follows it is never examined. */
  lemma {:induction false} ScanStopsAtBlank(pre: seq<Line>, rest: seq<Line>, flags: Flags, data: seq<Record>)
    ensures Scan(pre + [Blank] + rest, flags, data) == Scan(pre, flags, data)
    decreases |pre|
  {
    var lines := pre + [Blank] + rest;
    if pre == [] {
      assert lines[0] == Blank;
    } else {
      assert lines[0] == pre[0];
      assert lines[1..] == pre[1..] + [Blank] + rest;
      if pre[0].Parsed? {
        ScanStopsAtBlank(pre[1..], rest, flags, data);
        ScanStopsAtBlank(pre[1..], rest, flags, data + [pre[0].rec]);
      }
    }
  }

  /** Blank lines at the end of a file change nothing. */
  lemma TrailingBlankLines(raw: seq<string>, blanks: seq<string>, flags: Flags)
    requires blanks != [] && forall k :: 0 <= k < |blanks| ==> Strip(blanks[k]) == []
    ensures Load(raw + blanks, flags) == Load(raw, flags)
  {
    var ls := Classified(raw + blanks);
    assert ls == Classified(raw) + [Blank] + Classified(blanks)[1..] by {
      assert Classify(blanks[0]) == Blank;
    }
    ScanStopsAtBlank(Classified(raw), Classified(blanks)[1..], flags, []);
    assert Scan(Classified(raw) + [], flags, []) == Load(raw, flags) by {
      assert Classified(raw) + [] == Classified(raw);
    }
    ScanStopsAtBlank(Classified(raw), [], flags, []);
    assert Classified(raw) + [Blank] + [] == Classified(raw) + [Blank];
    ScanAtEnd(Classified(raw), flags, []);
  }

  /** The end of the file and a blank line end the scan alike. */
  lemma {:induction false} ScanAtEnd(pre: seq<Line>, flags: Flags, data: seq<Record>)
    ensures Scan(pre + [Blank], flags, data) == Scan(pre, flags, data)
    decreases |pre|
  {
    if pre != [] {
      assert (pre + [Blank])[0] == pre[0];
      assert (pre + [Blank])[1..] == pre[1..] + [Blank];
      if pre[0].Parsed? {
        ScanAtEnd(pre[1..], flags, data);
        ScanAtEnd(pre[1..], flags, data + [pre[0].rec]);
      }
    }
  }

  // ---------------------------------------------------------------------
  // A reference definition: up to the first blank, filter, cut
  // ---------------------------------------------------------------------

  /** The lines before the first blank one. */
  function Body(lines: seq<Line>): (body: seq<Line>)
    ensures |body| <= |lines| && body == lines[..|body|]
    ensures forall k :: 0 <= k < |body| ==> body[k] != Blank
    ensures |body| < |lines| ==> lines[|body|] == Blank
  {
    if lines == [] || lines[0] == Blank then [] else [lines[0]] + Body(lines[1..])
  }

  predicate WellFormed(body: seq<Line>) {
    forall k :: 0 <= k < |body| ==> body[k].Parsed?
  }

  /** The records of well-formed lines, in order. */
  function Records(body: seq<Line>): (recs: seq<Record>)
    requires WellFormed(body)
    ensures |recs| == |body|
    ensures forall k :: 0 <= k < |body| ==> recs[k] == body[k].rec
  {
    seq(|body|, k requires 0 <= k < |body| => body[k].rec)
  }

  /** The records of a well-formed body are its first line's record followed by the rest's. */
  lemma RecordsCons(body: seq<Line>, rest: seq<Line>)
    requires body != [] && rest == body[1..] && WellFormed(body)
    ensures WellFormed(rest)
    ensures Records(body) == [body[0].rec] + Records(rest)
  {
    forall k | 0 <= k < |rest| ensures rest[k].Parsed? {
      assert rest[k] == body[k + 1];
    }
    assert Records(body)[1..] == Records(rest);
  }

  /** The records meeting the start criterion, in order. */
  function Admitted(recs: seq<Record>, flags: Flags): (kept: seq<Record>)
    ensures |kept| <= |recs|
    ensures forall k :: 0 <= k < |kept| ==> StartCriteria(kept[k].time, flags)
  {
    if recs == [] then []
    else if StartCriteria(recs[0].time, flags) then [recs[0]] + Admitted(recs[1..], flags)
    else Admitted(recs[1..], flags)
  }

  /** Admitting a record in front: it is kept exactly when it meets the start criterion. */
  lemma AdmittedCons(rec: Record, rest: seq<Record>, flags: Flags)
    ensures Admitted([rec] + rest, flags)
         == if StartCriteria(rec.time, flags) then [rec] + Admitted(rest, flags) else Admitted(rest, flags)
  {
    assert ([rec] + rest)[0] == rec && ([rec] + rest)[1..] == rest;
  }

  /**
   * The records up to and including the first one whose stop criterion holds,
   * `done` records having been kept before them.
   */
  function CutAtStop(recs: seq<Record>, flags: Flags, done: nat): seq<Record> {
    if recs == [] then []
    else if StopCriteria(done + 1, recs[0].time, flags) then [recs[0]]
    else [recs[0]] + CutAtStop(recs[1..], flags, done + 1)
  }

  /**
   * When every line before the first blank one is well formed, the scan
   * returns the records meeting the start criterion, cut after the first one
   * meeting the stop criterion.
   */
  lemma {:induction false} ScanMatchesReference(lines: seq<Line>, flags: Flags, data: seq<Record>)
    requires WellFormed(Body(lines))
    ensures Scan(lines, flags, data)
         == Ok(data + CutAtStop(Admitted(Records(Body(lines)), flags), flags, |data|))
    decreases |lines|
  {
    if lines == [] || lines[0] == Blank {
      assert data + [] == data;
    } else {
      var body := Body(lines);
      assert body == [lines[0]] + Body(lines[1..]);
      assert body[0] == lines[0] && lines[0].Parsed?;
      assert WellFormed(Body(lines[1..])) by {
        forall k | 0 <= k < |Body(lines[1..])| ensures Body(lines[1..])[k].Parsed? {
          assert Body(lines[1..])[k] == body[k + 1];
        }
      }
      var rec := lines[0].rec;
      var rest := Records(Body(lines[1..]));
      RecordsCons(body, Body(lines[1..]));
      assert ([rec] + rest)[0] == rec && ([rec] + rest)[1..] == rest;
      if !StartCriteria(rec.time, flags) {
        assert Scan(lines, flags, data) == Scan(lines[1..], flags, data);
        assert Admitted([rec] + rest, flags) == Admitted(rest, flags);
        ScanMatchesReference(lines[1..], flags, data);
      } else if StopCriteria(|data| + 1, rec.time, flags) {
        var admitted := [rec] + Admitted(rest, flags);
        assert Admitted([rec] + rest, flags) == admitted;
        assert admitted[0] == rec;
        assert CutAtStop(admitted, flags, |data|) == [rec];
      } else {
        assert Scan(lines, flags, data) == Scan(lines[1..], flags, data + [rec]);
        var admitted := [rec] + Admitted(rest, flags);
        assert Admitted([rec] + rest, flags) == admitted;
        assert admitted[0] == rec && admitted[1..] == Admitted(rest, flags);
        var tail := CutAtStop(Admitted(rest, flags), flags, |data| + 1);
        assert CutAtStop(admitted, flags, |data|) == [rec] + tail;
        ScanMatchesReference(lines[1..], flags, data + [rec]);
        assert data + [rec] + tail == data + ([rec] + tail);
      }
    }
  }

  lemma {:induction false} AdmittedAll(recs: seq<Record>)
    ensures Admitted(recs, NoFlags) == recs
  {
    if recs != [] {
      AdmittedAll(recs[1..]);
    }
  }

  lemma {:induction false} CutNever(recs: seq<Record>, done: nat)
    ensures CutAtStop(recs, NoFlags, done) == recs
  {
    if recs != [] {
      CutNever(recs[1..], done + 1);
    }
  }

  /**
   * Without options, a well-formed log loads one record per line before the
   * first blank line, in order.
   */
  lemma LoadWithoutFlags(raw: seq<string>)
    requires WellFormed(Body(Classified(raw)))
    ensures Load(raw, NoFlags) == Ok(Records(Body(Classified(raw))))
    ensures |Load(raw, NoFlags).value| == |Body(Classified(raw))|
  {
    var body := Body(Classified(raw));
    ScanMatchesReference(Classified(raw), NoFlags, []);
    AdmittedAll(Records(body));
    CutNever(Records(body), 0);
    assert [] + Records(body) == Records(body);
  }

  // ---------------------------------------------------------------------
  // The field-count error
  // ---------------------------------------------------------------------

  /** No record among `recs` meets the stop criterion, `done` having been kept before them. */
  predicate NeverStops(recs: seq<Record>, flags: Flags, done: nat) {
    forall k :: 0 <= k < |recs| ==> !StopCriteria(done + k + 1, recs[k].time, flags)
  }

  /** Putting a record in front: no stop among them exactly when it does not stop and the rest do not. */
  lemma NeverStopsCons(rec: Record, kept: seq<Record>, flags: Flags, done: nat)
    ensures NeverStops([rec] + kept, flags, done)
        <==> !StopCriteria(done + 1, rec.time, flags) && NeverStops(kept, flags, done + 1)
  {
    var recs := [rec] + kept;
    if NeverStops(recs, flags, done) {
      assert recs[0] == rec;
      forall k | 0 <= k < |kept| ensures !StopCriteria(done + 1 + k + 1, kept[k].time, flags) {
        assert recs[k + 1] == kept[k];
      }
    }
    if !StopCriteria(done + 1, rec.time, flags) && NeverStops(kept, flags, done + 1) {
      forall k | 0 <= k < |recs| ensures !StopCriteria(done + k + 1, recs[k].time, flags) {
        if k > 0 {
          assert recs[k] == kept[k - 1];
        }
      }
    }
  }

  /**
   * Reaching line `j` through well-formed lines none of whose kept records
   * stops the loop, the scan goes on from line `j` with those records kept.
   */
  lemma {:induction false} ScanReachesLine(lines: seq<Line>, j: nat, flags: Flags, data: seq<Record>)
    requires j <= |lines| && WellFormed(lines[..j])
    requires NeverStops(Admitted(Records(lines[..j]), flags), flags, |data|)
    ensures Scan(lines, flags, data) == Scan(lines[j..], flags, data + Admitted(Records(lines[..j]), flags))
    decreases j
  {
    if j == 0 {
      assert lines[..0] == [];
      assert Admitted(Records(lines[..0]), flags) == [];
      assert data + [] == data;
    } else {
      var tail := lines[1..];
      PrefixSplit(lines, j);
      RecordsCons(lines[..j], tail[..j - 1]);
      var rec := lines[0].rec;
      var kept := Admitted(Records(tail[..j - 1]), flags);
      AdmittedCons(rec, Records(tail[..j - 1]), flags);
      assert tail[j - 1..] == lines[j..];
      ScanParsedLine(lines, flags, data);
      if StartCriteria(rec.time, flags) {
        NeverStopsCons(rec, kept, flags, |data|);
        ScanReachesLine(tail, j - 1, flags, data + [rec]);
        AppendAfter(data, rec, kept);
      } else {
        ScanReachesLine(tail, j - 1, flags, data);
      }
    }
  }

  /**
   * Reaching a line with the wrong number of fields before any stop, the scan
   * fails naming that line with (records kept so far) + 1, whatever the start
   * criterion would have made of the line.
   */
  lemma ScanReportsFieldCount(lines: seq<Line>, j: nat, flags: Flags, data: seq<Record>)
    requires j < |lines| && lines[j].WrongCount?
    requires WellFormed(lines[..j])
    requires NeverStops(Admitted(Records(lines[..j]), flags), flags, |data|)
    ensures Scan(lines, flags, data)
         == Err(FieldCountError(|data| + |Admitted(Records(lines[..j]), flags)| + 1, lines[j].text))
  {
    ScanReachesLine(lines, j, flags, data);
    assert lines[j..][0] == lines[j];
  }

  /**
   * Reaching a line whose time field is not a number before any stop, the
   * scan fails with that field, whatever the start criterion would have made
   * of the line.
   */
  lemma ScanReportsBadTime(lines: seq<Line>, j: nat, flags: Flags, data: seq<Record>)
    requires j < |lines| && lines[j].BadTime?
    requires WellFormed(lines[..j])
    requires NeverStops(Admitted(Records(lines[..j]), flags), flags, |data|)
    ensures Scan(lines, flags, data) == Err(TimeNotNumeric(lines[j].text))
  {
    ScanReachesLine(lines, j, flags, data);
    assert lines[j..][0] == lines[j];
  }

  /**
   * Once a kept record among well-formed lines meets the stop criterion, the
   * scan ends there: what follows those lines is never read, be it blank,
   * malformed or anything else.
   */
  lemma {:induction false} ScanIgnoresAfterStop(pre: seq<Line>, rest: seq<Line>, flags: Flags, data: seq<Record>)
    requires WellFormed(pre)
    requires !NeverStops(Admitted(Records(pre), flags), flags, |data|)
    ensures Scan(pre + rest, flags, data) == Ok(data + CutAtStop(Admitted(Records(pre), flags), flags, |data|))
    decreases |pre|
  {
    assert pre != [];
    var tl := pre[1..];
    assert (pre + rest)[0] == pre[0] && (pre + rest)[1..] == tl + rest;
    RecordsCons(pre, tl);
    var rec := pre[0].rec;
    var kept := Admitted(Records(tl), flags);
    AdmittedCons(rec, Records(tl), flags);
    ScanParsedLine(pre + rest, flags, data);
    CutAtStopCons(rec, kept, flags, |data|);
    if !StartCriteria(rec.time, flags) {
      ScanIgnoresAfterStop(tl, rest, flags, data);
    } else if !StopCriteria(|data| + 1, rec.time, flags) {
      NeverStopsCons(rec, kept, flags, |data|);
      ScanIgnoresAfterStop(tl, rest, flags, data + [rec]);
      AppendAfter(data, rec, CutAtStop(kept, flags, |data| + 1));
    }
  }

  /** One step of the scan over a parsed line. */
  lemma ScanParsedLine(lines: seq<Line>, flags: Flags, data: seq<Record>)
    requires lines != [] && lines[0].Parsed?
    ensures var rec := lines[0].rec;
      Scan(lines, flags, data)
        == if !StartCriteria(rec.time, flags) then Scan(lines[1..], flags, data)
           else if StopCriteria(|data| + 1, rec.time, flags) then Ok(data + [rec])
           else Scan(lines[1..], flags, data + [rec])
  {
  }

  /** One step of the cut. */
  lemma CutAtStopCons(rec: Record, kept: seq<Record>, flags: Flags, done: nat)
    ensures CutAtStop([rec] + kept, flags, done)
         == if StopCriteria(done + 1, rec.time, flags) then [rec] else [rec] + CutAtStop(kept, flags, done + 1)
  {
    assert ([rec] + kept)[0] == rec && ([rec] + kept)[1..] == kept;
  }

  lemma AppendAfter(data: seq<Record>, rec: Record, more: seq<Record>)
    ensures data + [rec] + more == data + ([rec] + more)
  {
  }

  /**
   * Without options the field-count error names the physical (1-based) line
   * and carries its stripped text.
   */
  lemma FieldCountNamesLine(raw: seq<string>, j: nat)
    requires j < |raw| && WellFormed(Classified(raw)[..j])
    requires Strip(raw[j]) != [] && Occurrences(Strip(raw[j]), TAB) != FieldCount - 1
    ensures Load(raw, NoFlags) == Err(FieldCountError(j + 1, Strip(raw[j])))
  {
    var lines := Classified(raw);
    assert lines[j] == Classify(raw[j]);
    ScanFieldCountNoFlags(lines, j);
  }

  lemma ScanFieldCountNoFlags(lines: seq<Line>, j: nat)
    requires j < |lines| && lines[j].WrongCount? && WellFormed(lines[..j])
    ensures Scan(lines, NoFlags, []) == Err(FieldCountError(j + 1, lines[j].text))
  {
    var recs := Records(lines[..j]);
    NoFlagsNeverStop(recs, 0);
    AdmittedAll(recs);
    ScanReportsFieldCount(lines, j, NoFlags, []);
  }

  lemma NoFlagsNeverStop(recs: seq<Record>, done: nat)
    ensures NeverStops(recs, NoFlags, done)
  {
  }

  /**
   * Conversely, a field-count error names a line with the wrong number of
   * fields, every line before it being well formed and no record kept from
   * them meeting the stop criterion; the number it carries is (records kept
   * before it) + 1, so at most the physical line number.
   */
  lemma {:induction false} FieldCountErrorLine(lines: seq<Line>, flags: Flags, data: seq<Record>, n: nat, text: string)
    requires Scan(lines, flags, data) == Err(FieldCountError(n, text))
    ensures exists j :: (0 <= j < |lines| && lines[j] == WrongCount(text) && WellFormed(lines[..j]) &&
                         NeverStops(Admitted(Records(lines[..j]), flags), flags, |data|) &&
                         n == |data| + |Admitted(Records(lines[..j]), flags)| + 1 && n <= |data| + j + 1)
    decreases |lines|
  {
    assert lines != [];
    if lines[0].WrongCount? {
      assert lines[..0] == [];
      assert Admitted(Records(lines[..0]), flags) == [];
      assert lines[0] == WrongCount(text) && n == |data| + 1;
      assert NeverStops([], flags, |data|);
    } else {
      assert lines[0].Parsed?;
      var rec := lines[0].rec;
      var tail := lines[1..];
      var d' := if StartCriteria(rec.time, flags) then data + [rec] else data;
      assert StartCriteria(rec.time, flags) ==> !StopCriteria(|data| + 1, rec.time, flags);
      assert Scan(tail, flags, d') == Err(FieldCountError(n, text));
      FieldCountErrorLine(tail, flags, d', n, text);
      var i :| 0 <= i < |tail| && tail[i] == WrongCount(text) && WellFormed(tail[..i]) &&
        NeverStops(Admitted(Records(tail[..i]), flags), flags, |d'|) &&
        n == |d'| + |Admitted(Records(tail[..i]), flags)| + 1 && n <= |d'| + i + 1;
      ExtendWitness(lines, flags, data, d', i, n, text);
    }
  }

  /** A field-count error found in the tail, after a well-formed first line, is found in the whole. */
  lemma ExtendWitness(lines: seq<Line>, flags: Flags, data: seq<Record>, d': seq<Record>, i: nat, n: nat, text: string)
    requires lines != [] && lines[0].Parsed?
    requires d' == if StartCriteria(lines[0].rec.time, flags) then data + [lines[0].rec] else data
    requires i < |lines| - 1 && lines[1..][i] == WrongCount(text) && WellFormed(lines[1..][..i])
    requires n == |d'| + |Admitted(Records(lines[1..][..i]), flags)| + 1 && n <= |d'| + i + 1
    requires NeverStops(Admitted(Records(lines[1..][..i]), flags), flags, |d'|)
    requires StartCriteria(lines[0].rec.time, flags) ==> !StopCriteria(|data| + 1, lines[0].rec.time, flags)
    ensures lines[i + 1] == WrongCount(text) && WellFormed(lines[..i + 1])
    ensures NeverStops(Admitted(Records(lines[..i + 1]), flags), flags, |data|)
    ensures n == |data| + |Admitted(Records(lines[..i + 1]), flags)| + 1 && n <= |data| + i + 2
  {
    var prefix := lines[..i + 1];
    PrefixSplit(lines, i + 1);
    WellFormedCons(prefix);
    RecordsCons(prefix, lines[1..][..i]);
    AdmittedCons(lines[0].rec, Records(lines[1..][..i]), flags);
    NeverStopsCons(lines[0].rec, Admitted(Records(lines[1..][..i]), flags), flags, |data|);
  }

  /** The first `j` lines are the first line followed by the first `j - 1` lines of the tail. */
  lemma PrefixSplit(lines: seq<Line>, j: nat)
    requires 0 < j <= |lines|
    ensures lines[..j][0] == lines[0] && lines[..j][1..] == lines[1..][..j - 1]
  {
    forall k | 0 <= k < j - 1 ensures lines[..j][1..][k] == lines[1..][..j - 1][k] {
      assert lines[..j][1..][k] == lines[k + 1];
    }
  }

  /** A well-formed line in front of well-formed lines. */
  lemma WellFormedCons(body: seq<Line>)
    requires body != [] && body[0].Parsed? && WellFormed(body[1..])
    ensures WellFormed(body)
  {
    forall k | 0 < k < |body| ensures body[k].Parsed? {
      assert body[k] == body[1..][k - 1];
    }
  }
}
