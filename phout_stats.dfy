/**
 * The statistics layer over loaded phout records: `size`, `subset`,
 * `get_quantiles`, `get_rps` and `count_uniq_by_field`.
 */
module PhoutStats {
  import opened Wrappers
  import opened Text
  import opened Sorting
  import opened Phout

  datatype StatsError =
    | NotInteger(text: string)              // `astype(int)` meets a cell that is not an integer
    | QuantileOutOfRange                    // a requested quantile lies outside [0, 1]
    | EmptyDataset                          // `iloc[0]` on an empty frame
    | NegativeDuration(fromDate: real, toDate: real)  // "Incorrect time values from_date > to_data ..."

  // ---------------------------------------------------------------------
  // size and subset
  // ---------------------------------------------------------------------

  /** `size(data_frame)`: the number of rows. */
  function Size(ds: seq<Record>): nat {
    |ds|
  }

  /** How Python reads a slice bound against a length `n`: negative bounds count from the end, and bounds are clipped. */
  function SliceBound(i: int, n: nat): (b: nat)
    ensures b <= n
    ensures 0 <= i <= n ==> b == i
  {
    if i < 0 then (if i + n < 0 then 0 else i + n)
    else if i > n then n
    else i
  }

  function Min(a: int, b: int): int {
    if a <= b then a else b
  }

  /** `subset(data_frame, start, offset)`: `data_frame.iloc[start:start + offset]`. */
  function Subset(ds: seq<Record>, start: int, offset: int): (sub: seq<Record>)
    ensures |sub| <= Size(ds)
    ensures 0 <= start <= |ds| && 0 <= offset ==> sub == ds[start..Min(start + offset, |ds|)]
    ensures |ds| < start ==> sub == []
  {
    var lo := SliceBound(start, |ds|);
    var hi := SliceBound(start + offset, |ds|);
    if lo <= hi then ds[lo..hi] else []
  }

  /** A window that fits holds exactly `offset` records, those from `start` on, in order. */
  lemma SubsetExact(ds: seq<Record>, start: nat, offset: nat)
    requires start + offset <= Size(ds)
    ensures Size(Subset(ds, start, offset)) == offset
    ensures forall k :: 0 <= k < offset ==> Subset(ds, start, offset)[k] == ds[start + k]
  {
  }

  /** Consecutive windows concatenate to the window spanning both. */
  lemma SubsetChunks(ds: seq<Record>, start: nat, a: nat, b: nat)
    ensures Subset(ds, start, a) + Subset(ds, start + a, b) == Subset(ds, start, a + b)
  {
    var n := |ds|;
    if start > n {
    } else if start + a > n {
      assert Subset(ds, start + a, b) == [];
    } else {
      assert ds[start..start + a] + ds[start + a..Min(start + a + b, n)] == ds[start..Min(start + a + b, n)];
    }
  }

  /** A window from 0 of the full size is the whole dataset. */
  lemma SubsetWhole(ds: seq<Record>)
    ensures Subset(ds, 0, Size(ds)) == ds
  {
  }

  /**
   * A negative start counts from the end, but a window that ends exactly at
   * 0 is empty: `iloc[-k:0]` selects nothing.
   */
  lemma SubsetNegativeStart(ds: seq<Record>, k: nat, offset: nat)
    requires 0 < k <= |ds|
    ensures offset < k ==> Subset(ds, -(k as int), offset) == ds[|ds| - k..|ds| - k + offset]
    ensures Subset(ds, -(k as int), k) == []
  {
  }

  // ---------------------------------------------------------------------
  // Columns
  // ---------------------------------------------------------------------

  /** The ten integer columns of a phout record. */
  datatype Column =
    | IntervalReal | ConnectTime | SendTime | Latency | ReceiveTime
    | IntervalEvent | SizeOut | SizeIn | NetCode | ProtoCode

  function Cell(rec: Record, col: Column): string {
    match col
    case IntervalReal => rec.intervalReal
    case ConnectTime => rec.connectTime
    case SendTime => rec.sendTime
    case Latency => rec.latency
    case ReceiveTime => rec.receiveTime
    case IntervalEvent => rec.intervalEvent
    case SizeOut => rec.sizeOut
    case SizeIn => rec.sizeIn
    case NetCode => rec.netCode
    case ProtoCode => rec.protoCode
  }

  /** A column cast with `astype(int)`: it fails on the first cell that is not an integer. */
  function ColumnValues(ds: seq<Record>, col: Column): (r: Result<seq<int>, StatsError>)
    ensures r.Ok? <==> forall k :: 0 <= k < |ds| ==> ParseInt(Cell(ds[k], col)).Some?
    ensures r.Ok? ==> (|r.value| == |ds| &&
      forall k :: 0 <= k < |ds| ==> ParseInt(Cell(ds[k], col)) == Some(r.value[k]))
    ensures r.Err? ==> exists k :: (0 <= k < |ds| && ParseInt(Cell(ds[k], col)).None? &&
                                   r.error == NotInteger(Cell(ds[k], col)))
  {
    if ds == [] then Ok([])
    else
      match ParseInt(Cell(ds[0], col))
      case None => Err(NotInteger(Cell(ds[0], col)))
      case Some(v) =>
        match ColumnValues(ds[1..], col)
        case Err(e) =>
          assert forall k :: 1 <= k < |ds| ==> ds[1..][k - 1] == ds[k];
          Err(e)
        case Ok(rest) =>
          assert forall k :: 1 <= k < |ds| ==> ds[1..][k - 1] == ds[k];
          Ok([v] + rest)
  }

  // ---------------------------------------------------------------------
  // get_quantiles
  // ---------------------------------------------------------------------

  /** The quantile list used when none (or an empty one) is given. */
  const DefaultQuantiles: seq<real> :=
    [0.1, 0.2, 0.3, 0.4, 0.5, 0.6, 0.7, 0.8, 0.9, 0.95, 0.98, 0.99, 1.0]

  predicate InUnitInterval(q: real) {
    0.0 <= q <= 1.0
  }

  /** The position h = (n - 1) q of the quantile among n sorted values. */
  function Position(n: nat, q: real): real {
    (n - 1) as real * q
  }

  /**
   * Linear interpolation between the order statistics either side of
   * h = (n - 1) q, the default method of `Series.quantile`.
   */
  function Interpolate(sorted: seq<int>, q: real): (v: real)
    requires sorted != [] && InUnitInterval(q)
    ensures Ascending(sorted) ==> sorted[0] as real <= v <= sorted[|sorted| - 1] as real
    ensures forall k :: 0 <= k < |sorted| && Position(|sorted|, q) == k as real ==> v == sorted[k] as real
  {
    var h := Position(|sorted|, q);
    var lo := h.Floor;
    PositionBounds(|sorted|, q);
    if lo + 1 < |sorted| then
      var below := sorted[lo] as real;
      var above := sorted[lo + 1] as real;
      var v := Lerp(below, above, h - lo as real);
      assert Ascending(sorted) ==> below <= v <= above by {
        if Ascending(sorted) {
          assert Identity(sorted[lo]) <= Identity(sorted[lo + 1]);
          FractionBetween(below, above, h - lo as real);
        }
      }
      assert Ascending(sorted) ==> sorted[0] as real <= below && above <= sorted[|sorted| - 1] as real by {
        if Ascending(sorted) {
          assert Identity(sorted[0]) <= Identity(sorted[lo]);
          assert Identity(sorted[lo + 1]) <= Identity(sorted[|sorted| - 1]);
        }
      }
      v
    else
      assert Ascending(sorted) ==> sorted[0] <= sorted[lo] by {
        if Ascending(sorted) && lo > 0 {
          assert Identity(sorted[0]) <= Identity(sorted[lo]);
        }
      }
      sorted[lo] as real
  }

  /** The point a fraction `t` of the way from `a` to `b`. */
  function Lerp(a: real, b: real, t: real): real {
    a + t * (b - a)
  }

  lemma FractionBetween(a: real, b: real, t: real)
    requires a <= b && 0.0 <= t <= 1.0
    ensures a <= Lerp(a, b, t) <= b
  {
    var d := b - a;
    assert t * d >= 0.0;
    assert (1.0 - t) * d >= 0.0;
    assert t * d + (1.0 - t) * d == d;
  }

  lemma PositionBounds(n: nat, q: real)
    requires n > 0 && InUnitInterval(q)
    ensures 0.0 <= Position(n, q) <= (n - 1) as real
    ensures 0 <= Position(n, q).Floor < n
  {
    var m := (n - 1) as real;
    assert 0.0 <= m * q <= m * 1.0;
  }

  lemma PositionMonotone(n: nat, p: real, q: real)
    requires n > 0 && p <= q
    ensures Position(n, p) <= Position(n, q)
  {
  }

  lemma FractionMonotone(a: real, b: real, s: real, t: real)
    requires a <= b && s <= t
    ensures Lerp(a, b, s) <= Lerp(a, b, t)
  {
  }

  /** q = 0 gives the minimum and q = 1 the maximum. */
  lemma InterpolateEnds(sorted: seq<int>)
    requires sorted != []
    ensures Interpolate(sorted, 0.0) == sorted[0] as real
    ensures Interpolate(sorted, 1.0) == sorted[|sorted| - 1] as real
  {
    assert Position(|sorted|, 0.0) == 0.0;
    assert Position(|sorted|, 1.0) == (|sorted| - 1) as real;
  }

  /** Over sorted values, a larger q never gives a smaller quantile. */
  lemma InterpolateMonotone(sorted: seq<int>, p: real, q: real)
    requires sorted != [] && Ascending(sorted)
    requires InUnitInterval(p) && InUnitInterval(q) && p <= q
    ensures Interpolate(sorted, p) <= Interpolate(sorted, q)
  {
    var n := |sorted|;
    var hp, hq := Position(n, p), Position(n, q);
    PositionMonotone(n, p, q);
    PositionBounds(n, p);
    PositionBounds(n, q);
    var lp, lq := hp.Floor, hq.Floor;
    if lp == lq {
      if lp + 1 < n {
        var below, above := sorted[lp] as real, sorted[lp + 1] as real;
        assert Identity(sorted[lp]) <= Identity(sorted[lp + 1]);
        FractionMonotone(below, above, hp - lp as real, hq - lp as real);
      }
    } else {
      assert lp + 1 < n;
      assert Interpolate(sorted, p) <= sorted[lp + 1] as real by {
        assert Identity(sorted[lp]) <= Identity(sorted[lp + 1]);
        FractionBetween(sorted[lp] as real, sorted[lp + 1] as real, hp - lp as real);
      }
      assert sorted[lp + 1] <= sorted[lq] by {
        if lp + 1 < lq {
          assert Identity(sorted[lp + 1]) <= Identity(sorted[lq]);
        }
      }
      assert sorted[lq] as real <= Interpolate(sorted, q) by {
        if lq + 1 < n {
          assert Identity(sorted[lq]) <= Identity(sorted[lq + 1]);
          FractionBetween(sorted[lq] as real, sorted[lq + 1] as real, hq - lq as real);
        }
      }
    }
  }

  /** One row of the table `get_quantiles` returns; `value` is None where pandas gives NaN. */
  datatype QuantileRow = QuantileRow(quantile: real, value: Option<real>)

  /** `Series.quantile(qs)` of integer values: NaN for no values, an error for q outside [0, 1]. */
  function QuantilesOf(values: seq<int>, qs: seq<real>): (r: Result<seq<QuantileRow>, StatsError>)
    ensures r.Err? <==> exists k :: 0 <= k < |qs| && !InUnitInterval(qs[k])
    ensures r.Err? ==> r.error == QuantileOutOfRange
    ensures r.Ok? ==> (|r.value| == |qs| &&
      forall k :: 0 <= k < |qs| ==> (r.value[k].quantile == qs[k] &&
        (r.value[k].value.Some? <==> values != []) &&
        (values != [] ==> r.value[k].value.value == Interpolate(SortAscending(values), qs[k]))))
  {
    if exists k :: 0 <= k < |qs| && !InUnitInterval(qs[k]) then Err(QuantileOutOfRange)
    else
      var sorted := SortAscending(values);
      Ok(seq(|qs|, k requires 0 <= k < |qs| =>
        QuantileRow(qs[k], if values == [] then None else Some(Interpolate(sorted, qs[k])))))
  }

  /**
   * `get_quantiles(data_frame, field_name, quantile_list)`: cast the column
   * to integers, then take the quantiles; an empty or missing list means the
   * default list.
   */
  function GetQuantiles(ds: seq<Record>, col: Column, qs: seq<real>): (r: Result<seq<QuantileRow>, StatsError>)
    ensures (exists k :: 0 <= k < |ds| && ParseInt(Cell(ds[k], col)).None?) ==>
      r.Err? && r.error.NotInteger?
    ensures r.Ok? ==> var wanted := if qs == [] then DefaultQuantiles else qs;
      |r.value| == |wanted| &&
      forall k :: 0 <= k < |wanted| ==> (r.value[k].quantile == wanted[k] &&
                                         (r.value[k].value.None? <==> Size(ds) == 0))
  {
    match ColumnValues(ds, col)
    case Err(e) => Err(e)
    case Ok(values) => QuantilesOf(values, if qs == [] then DefaultQuantiles else qs)
  }

  /** With a valid list and an integer column, the quantiles are computed and interpolate the sorted column. */
  lemma GetQuantilesOk(ds: seq<Record>, col: Column, qs: seq<real>)
    requires forall k :: 0 <= k < |ds| ==> ParseInt(Cell(ds[k], col)).Some?
    requires forall k :: 0 <= k < |qs| ==> InUnitInterval(qs[k])
    ensures GetQuantiles(ds, col, qs).Ok?
    ensures ds != [] ==> forall k :: 0 <= k < |GetQuantiles(ds, col, qs).value| ==>
      GetQuantiles(ds, col, qs).value[k].value.value
        == Interpolate(SortAscending(ColumnValues(ds, col).value), GetQuantiles(ds, col, qs).value[k].quantile)
  {
    var wanted := if qs == [] then DefaultQuantiles else qs;
    DefaultQuantilesValid();
    assert forall k :: 0 <= k < |wanted| ==> InUnitInterval(wanted[k]);
    var cast := ColumnValues(ds, col);
    assert cast.Ok? && |cast.value| == |ds|;
    assert GetQuantiles(ds, col, qs) == QuantilesOf(cast.value, wanted);
  }

  /** An empty dataset gives the thirteen default quantiles, each undefined. */
  lemma QuantilesOfEmpty()
    ensures GetQuantiles([], Latency, []).Ok?
    ensures |GetQuantiles([], Latency, []).value| == 13
    ensures forall k :: 0 <= k < 13 ==> GetQuantiles([], Latency, []).value[k].value == None
  {
  }

  /** The order of the records does not matter to the quantiles. */
  lemma QuantilesIgnoreOrder(a: seq<int>, b: seq<int>, qs: seq<real>)
    requires multiset(a) == multiset(b)
    ensures QuantilesOf(a, qs) == QuantilesOf(b, qs)
  {
    SortAscendingPermutation(a, b);
    assert a == [] <==> b == [] by {
      assert |multiset(a)| == |a| && |multiset(b)| == |b|;
    }
  }

  /** `astype(int)` of a float: truncation toward zero. */
  function Truncate(x: real): (i: int)
    ensures x >= 0.0 ==> i as real <= x < i as real + 1.0
    ensures x < 0.0 ==> i as real - 1.0 < x <= i as real
  {
    if x >= 0.0 then x.Floor else -((-x).Floor)
  }

  /**
   * Any ascending arrangement of the values is the one the quantiles are
   * read from.
   */
  lemma QuantilesFromSorted(values: seq<int>, sorted: seq<int>, qs: seq<real>)
    requires Ascending(sorted) && multiset(sorted) == multiset(values)
    requires values != [] && forall k :: 0 <= k < |qs| ==> InUnitInterval(qs[k])
    ensures QuantilesOf(values, qs).Ok?
    ensures forall k :: 0 <= k < |qs| ==> (QuantilesOf(values, qs).value[k].value.Some? &&
                                          QuantilesOf(values, qs).value[k].value.value == Interpolate(sorted, qs[k]))
  {
    AscendingUnique(SortAscending(values), sorted);
  }

  /** The median of 1..5 is 3. */
  lemma MedianExample(values: seq<int>, qs: seq<real>)
    requires values == [1, 2, 3, 4, 5] && qs == [0.5]
    ensures QuantilesOf(values, qs).Ok?
    ensures QuantilesOf(values, qs).value[0].value.Some?
    ensures QuantilesOf(values, qs).value[0].value.value == 3.0
  {
    assert Ascending(values) && InUnitInterval(qs[0]);
    QuantilesFromSorted(values, values, qs);
    assert Interpolate(values, qs[0]) == 3.0 by {
      assert Position(|values|, 0.5) == 2.0;
    }
  }

  /** The latency column of the ten-line sample log, in file order. */
  const SampleLatency: seq<int> := [5785, 5315, 5191, 5581, 5740, 4555, 4581, 5079, 4500, 4750]

  const SampleLatencySorted: seq<int> := [4500, 4555, 4581, 4750, 5079, 5191, 5315, 5581, 5740, 5785]

  /** The default quantiles of those latencies, truncated to integers. */
  const SampleLatencyExpected: seq<int> :=
    [4549, 4575, 4699, 4947, 5135, 5240, 5394, 5612, 5744, 5764, 5776, 5780, 5785]

  lemma SampleLatencySortedAscends()
    ensures Ascending(SampleLatencySorted)
  {
  }

  lemma SampleLatencyPermutes()
    ensures multiset(SampleLatency) == multiset(SampleLatencySorted)
  {
    DistinctInts(SampleLatency);
    DistinctInts(SampleLatencySorted);
    SameMembersPermute(SampleLatency, SampleLatencySorted);
  }

  /** Where h = (n - 1) q falls strictly between two order statistics, the quantile is read between them. */
  lemma InterpolateBetween(sorted: seq<int>, q: real, lo: nat, t: real)
    requires lo + 1 < |sorted| && 0.0 <= t < 1.0 && InUnitInterval(q)
    requires Position(|sorted|, q) == lo as real + t
    ensures Interpolate(sorted, q) == Lerp(sorted[lo] as real, sorted[lo + 1] as real, t)
  {
    assert Position(|sorted|, q).Floor == lo;
  }

  /** One default quantile of the sample latencies; h = 9q is `lo` plus the fraction `t`. */
  lemma SampleQuantile(k: nat, lo: nat, t: real)
    requires k < |DefaultQuantiles| && lo + 1 < |SampleLatencySorted| && 0.0 <= t < 1.0
    requires InUnitInterval(DefaultQuantiles[k])
    requires Position(|SampleLatencySorted|, DefaultQuantiles[k]) == lo as real + t
    requires k < |SampleLatencyExpected|
    requires Truncate(Lerp(SampleLatencySorted[lo] as real, SampleLatencySorted[lo + 1] as real, t))
          == SampleLatencyExpected[k]
    ensures Truncate(Interpolate(SampleLatencySorted, DefaultQuantiles[k])) == SampleLatencyExpected[k]
  {
    InterpolateBetween(SampleLatencySorted, DefaultQuantiles[k], lo, t);
  }

  lemma SampleLatencyInterpolates()
    ensures forall k :: 0 <= k < 13 ==>
      Truncate(Interpolate(SampleLatencySorted, DefaultQuantiles[k])) == SampleLatencyExpected[k]
  {
    forall k | 0 <= k < 13
      ensures Truncate(Interpolate(SampleLatencySorted, DefaultQuantiles[k])) == SampleLatencyExpected[k]
    {
      if k < 5 {
        SampleDeciles(k);
      } else if k < 9 {
        SampleUpperDeciles(k);
      } else {
        SampleTail(k);
      }
    }
  }

  lemma SampleDeciles(k: nat)
    requires k < 5
    ensures Truncate(Interpolate(SampleLatencySorted, DefaultQuantiles[k])) == SampleLatencyExpected[k]
  {
    if k == 0 { SampleQuantile(k, 0, 0.9); }
    else if k == 1 { SampleQuantile(k, 1, 0.8); }
    else if k == 2 { SampleQuantile(k, 2, 0.7); }
    else if k == 3 { SampleQuantile(k, 3, 0.6); }
    else { SampleQuantile(k, 4, 0.5); }
  }

  lemma SampleUpperDeciles(k: nat)
    requires 5 <= k < 9
    ensures Truncate(Interpolate(SampleLatencySorted, DefaultQuantiles[k])) == SampleLatencyExpected[k]
  {
    if k == 5 { SampleQuantile(k, 5, 0.4); }
    else if k == 6 { SampleQuantile(k, 6, 0.3); }
    else if k == 7 { SampleQuantile(k, 7, 0.2); }
    else { SampleQuantile(k, 8, 0.1); }
  }

  lemma SampleTail(k: nat)
    requires 9 <= k < 13
    ensures Truncate(Interpolate(SampleLatencySorted, DefaultQuantiles[k])) == SampleLatencyExpected[k]
  {
    if k == 9 { SampleQuantile(k, 8, 0.55); }
    else if k == 10 { SampleQuantile(k, 8, 0.82); }
    else if k == 11 { SampleQuantile(k, 8, 0.91); }
    else { InterpolateEnds(SampleLatencySorted); }
  }

  /** The default quantiles of the sample latencies, truncated to integers, are the expected table. */
  lemma SampleLatencyQuantiles(values: seq<int>, qs: seq<real>)
    requires values == SampleLatency && qs == DefaultQuantiles
    ensures QuantilesOf(values, qs).Ok?
    ensures var rows := QuantilesOf(values, qs).value;
      |rows| == 13 &&
      forall k :: 0 <= k < 13 ==> (rows[k].value.Some? &&
                                   Truncate(rows[k].value.value) == SampleLatencyExpected[k])
  {
    SampleLatencySortedAscends();
    SampleLatencyPermutes();
    DefaultQuantilesValid();
    QuantilesFromSorted(values, SampleLatencySorted, qs);
    SampleLatencyInterpolates();
  }

  /** All thirteen default quantiles lie in [0, 1]. */
  lemma DefaultQuantilesValid()
    ensures |DefaultQuantiles| == 13
    ensures forall k :: 0 <= k < |DefaultQuantiles| ==> InUnitInterval(DefaultQuantiles[k])
  {
    forall k | 0 <= k < |DefaultQuantiles| ensures InUnitInterval(DefaultQuantiles[k]) {
      assert k in {0, 1, 2, 3, 4, 5, 6, 7, 8, 9, 10, 11, 12};
    }
  }

  // ---------------------------------------------------------------------
  // get_rps
  // ---------------------------------------------------------------------

  /**
   * `get_rps(data_frame)`: the number of rows over the span from the first to
   * the last row's time, a span of 0 counting as 1 second.
   */
  function GetRps(ds: seq<Record>): (r: Result<real, StatsError>)
    ensures ds == [] ==> r == Err(EmptyDataset)
    ensures ds != [] && ds[|ds| - 1].time < ds[0].time ==>
      r == Err(NegativeDuration(ds[0].time, ds[|ds| - 1].time))
    ensures r.Ok? <==> ds != [] && ds[0].time <= ds[|ds| - 1].time
    ensures r.Ok? && ds[0].time == ds[|ds| - 1].time ==> r.value == Size(ds) as real
    ensures r.Ok? && ds[0].time < ds[|ds| - 1].time ==>
      r.value * (ds[|ds| - 1].time - ds[0].time) == Size(ds) as real
  {
    if ds == [] then Err(EmptyDataset)
    else
      var fromDate := ds[0].time;
      var toDate := ds[|ds| - 1].time;
      var duration := toDate - fromDate;
      if duration < 0.0 then Err(NegativeDuration(fromDate, toDate))
      else
        var span := if duration == 0.0 then 1.0 else duration;
        Ok(Size(ds) as real / span)
  }

  /** A non-empty log in time order has a positive rate. */
  lemma RpsOfOrderedLog(ds: seq<Record>)
    requires ds != []
    requires forall i, j :: 0 <= i < j < |ds| ==> ds[i].time <= ds[j].time
    ensures GetRps(ds).Ok? && GetRps(ds).value > 0.0
  {
    if |ds| > 1 {
      assert ds[0].time <= ds[|ds| - 1].time;
    }
  }

  /** Only the first and the last row's times matter, not those in between. */
  lemma RpsUsesEnds(ds: seq<Record>, other: seq<Record>)
    requires ds != [] && |other| == |ds|
    requires other[0].time == ds[0].time && other[|ds| - 1].time == ds[|ds| - 1].time
    ensures GetRps(other) == GetRps(ds)
  {
  }

  // ---------------------------------------------------------------------
  // count_uniq_by_field
  // ---------------------------------------------------------------------

  /** A distinct value and how often it occurs. */
  datatype Group = Group(value: int, count: nat)

  function GroupValue(g: Group): int {
    g.value
  }

  /** Counts one more `v`: the existing group's count goes up, or a new group is added at the end. */
  function Bump(groups: seq<Group>, v: int): (r: seq<Group>)
    ensures |r| == |groups| || |r| == |groups| + 1
  {
    if groups == [] then [Group(v, 1)]
    else if groups[0].value == v then [Group(v, groups[0].count + 1)] + groups[1..]
    else [groups[0]] + Bump(groups[1..], v)
  }

  /** The distinct values of `vals` with their counts. */
  function Tally(vals: seq<int>): seq<Group> {
    if vals == [] then [] else Bump(Tally(vals[1..]), vals[0])
  }

  function CountOf(g: Group): int {
    g.count
  }

  /** What a tally of `vals` must be: distinct values, each with its number of occurrences, covering every value. */
  predicate TallyOf(groups: seq<Group>, vals: seq<int>) {
    DistinctBy(groups, GroupValue) &&
    (forall k :: 0 <= k < |groups| ==> groups[k].count == Occurrences(vals, groups[k].value) > 0) &&
    (forall v :: v in vals ==> exists k :: 0 <= k < |groups| && groups[k].value == v) &&
    SumBy(groups, CountOf) == |vals|
  }

  lemma {:induction false} BumpTally(groups: seq<Group>, v: int, vals: seq<int>)
    requires TallyOf(groups, vals)
    ensures TallyOf(Bump(groups, v), [v] + vals)
    decreases |groups|
  {
    var all := [v] + vals;
    assert all[1..] == vals;
    var r := Bump(groups, v);
    if groups == [] {
      assert vals == [];
      assert all == [v] && all[1..] == [];
      assert r == [Group(v, 1)] && r[1..] == [];
      forall u | u in all ensures exists k :: 0 <= k < |r| && r[k].value == u {
        assert r[0].value == u;
      }
    } else if groups[0].value == v {
      forall k | 0 <= k < |r| ensures r[k].value == groups[k].value {
        if k > 0 { assert r[k] == groups[k]; }
      }
      assert SumBy(r, CountOf) == |all| by {
        assert r[1..] == groups[1..];
      }
      forall k | 0 <= k < |r| ensures r[k].count == Occurrences(all, r[k].value) > 0 {
        if k > 0 {
          assert r[k] == groups[k];
          assert GroupValue(groups[0]) != GroupValue(groups[k]);
        }
      }
      forall u | u in all ensures exists k :: 0 <= k < |r| && r[k].value == u {
        if u != v {
          var k :| 0 <= k < |groups| && groups[k].value == u;
          assert r[k].value == u;
        } else {
          assert r[0].value == u;
        }
      }
      forall i, j | 0 <= i < j < |r| ensures GroupValue(r[i]) != GroupValue(r[j]) {
        assert GroupValue(groups[i]) != GroupValue(groups[j]);
      }
    } else {
      // The first group keeps its count; the rest are the tally of the other values.
      var g := groups[0];
      var tail := groups[1..];
      var others := OthersThan(vals, g.value);
      assert TallyOf(tail, others) by {
        OthersTally(groups, vals);
      }
      BumpTally(tail, v, others);
      var rest := Bump(tail, v);
      assert r == [g] + rest;
      OthersPrepend(v, vals, g.value);
      assert [v] + others == OthersThan(all, g.value);
      RejoinTally(g, rest, all);
    }
  }

  /** The values of `vals` other than `u`, in order. */
  function OthersThan(vals: seq<int>, u: int): (r: seq<int>)
    ensures |r| == |vals| - Occurrences(vals, u)
    ensures forall v :: v in r <==> v in vals && v != u
    ensures forall v :: v != u ==> Occurrences(r, v) == Occurrences(vals, v)
  {
    if vals == [] then []
    else if vals[0] == u then OthersThan(vals[1..], u)
    else [vals[0]] + OthersThan(vals[1..], u)
  }

  lemma OthersPrepend(v: int, vals: seq<int>, u: int)
    requires v != u
    ensures OthersThan([v] + vals, u) == [v] + OthersThan(vals, u)
  {
    assert ([v] + vals)[1..] == vals;
  }

  /** Dropping the first group of a tally leaves a tally of the other values. */
  lemma OthersTally(groups: seq<Group>, vals: seq<int>)
    requires groups != [] && TallyOf(groups, vals)
    ensures TallyOf(groups[1..], OthersThan(vals, groups[0].value))
  {
    var u := groups[0].value;
    var tail := groups[1..];
    var others := OthersThan(vals, u);
    forall i, j | 0 <= i < j < |tail| ensures GroupValue(tail[i]) != GroupValue(tail[j]) {
      assert tail[i] == groups[i + 1] && tail[j] == groups[j + 1];
    }
    forall k | 0 <= k < |tail| ensures tail[k].count == Occurrences(others, tail[k].value) > 0 {
      assert tail[k] == groups[k + 1];
      assert GroupValue(groups[0]) != GroupValue(groups[k + 1]);
    }
    forall v | v in others ensures exists k :: 0 <= k < |tail| && tail[k].value == v {
      var k :| 0 <= k < |groups| && groups[k].value == v;
      assert k != 0;
      assert tail[k - 1] == groups[k];
    }
    assert SumBy(groups, CountOf) == groups[0].count + SumBy(tail, CountOf);
  }

  /** Putting a group back in front of a tally of the other values gives a tally of all of them. */
  lemma RejoinTally(g: Group, rest: seq<Group>, all: seq<int>)
    requires g.count == Occurrences(all, g.value) > 0
    requires TallyOf(rest, OthersThan(all, g.value))
    ensures TallyOf([g] + rest, all)
  {
    var r := [g] + rest;
    var others := OthersThan(all, g.value);
    forall k | 0 <= k < |rest| ensures rest[k].value != g.value {
      assert rest[k].count > 0;
      if rest[k].value == g.value {
        OccurrencesAbsent(others, g.value);
      }
    }
    forall i, j | 0 <= i < j < |r| ensures GroupValue(r[i]) != GroupValue(r[j]) {
      assert r[j] == rest[j - 1];
      if i > 0 {
        assert r[i] == rest[i - 1];
        assert GroupValue(rest[i - 1]) != GroupValue(rest[j - 1]);
      }
    }
    forall k | 0 <= k < |r| ensures r[k].count == Occurrences(all, r[k].value) > 0 {
      if k > 0 { assert r[k] == rest[k - 1]; }
    }
    forall v | v in all ensures exists k :: 0 <= k < |r| && r[k].value == v {
      if v == g.value {
        assert r[0].value == v;
      } else {
        assert v in others;
        var k :| 0 <= k < |rest| && rest[k].value == v;
        assert r[k + 1] == rest[k];
      }
    }
    assert r[1..] == rest;
  }

  lemma {:induction false} OccurrencesAbsent(s: seq<int>, v: int)
    requires v !in s
    ensures Occurrences(s, v) == 0
  {
    if s != [] {
      assert s[0] != v;
      assert forall x :: x in s[1..] ==> x in s;
      OccurrencesAbsent(s[1..], v);
    }
  }

  /** `Tally` meets its specification. */
  lemma {:induction false} TallyCorrect(vals: seq<int>)
    ensures TallyOf(Tally(vals), vals)
  {
    if vals != [] {
      TallyCorrect(vals[1..]);
      BumpTally(Tally(vals[1..]), vals[0], vals[1..]);
      assert [vals[0]] + vals[1..] == vals;
    }
  }

  /** One row of the table `count_uniq_by_field` returns. */
  datatype CodeCount = CodeCount(value: int, count: nat, percent: real)

  /** The table: `column` is the name given to the value column. */
  datatype CodeTable = CodeTable(column: string, rows: seq<CodeCount>)

  /** Sort key for `value_counts`: larger counts first. */
  function ByCountDescending(c: CodeCount): int {
    -(c.count as int)
  }

  function RowValue(c: CodeCount): int {
    c.value
  }

  function RowCount(c: CodeCount): int {
    c.count
  }

  /** `count` as a percentage of `total`. */
  function Percent(count: int, total: nat): real
    requires total > 0
  {
    100.0 * count as real / total as real
  }

  function WithPercent(g: Group, total: nat): CodeCount
    requires total > 0
  {
    CodeCount(g.value, g.count, Percent(g.count, total))
  }

  function Rows(groups: seq<Group>, total: nat): (rows: seq<CodeCount>)
    requires total > 0
    ensures |rows| == |groups|
    ensures forall k :: 0 <= k < |groups| ==> rows[k] == WithPercent(groups[k], total)
  {
    seq(|groups|, k requires 0 <= k < |groups| => WithPercent(groups[k], total))
  }

  /** `value_counts()` of integer codes, with each count's share of all codes in percent. */
  function ValueCounts(codes: seq<int>): seq<CodeCount> {
    if codes == [] then [] else SortBy(Rows(Tally(codes), |codes|), ByCountDescending)
  }

  /** Larger counts come first. */
  predicate CountsNonIncreasing(rows: seq<CodeCount>) {
    forall i, j :: 0 <= i < j < |rows| ==> rows[i].count >= rows[j].count
  }

  /** Each row's count is the number of times its value occurs, and its percentage that count's share. */
  predicate RowsCount(rows: seq<CodeCount>, codes: seq<int>) {
    forall k :: 0 <= k < |rows| ==> RowCounts(rows[k], codes)
  }

  predicate RowCounts(row: CodeCount, codes: seq<int>) {
    row.count == Occurrences(codes, row.value) > 0 &&
    |codes| > 0 && row.percent == Percent(row.count, |codes|)
  }

  /** Every code has a row. */
  predicate RowsCover(rows: seq<CodeCount>, codes: seq<int>) {
    forall v :: v in codes ==> exists k :: 0 <= k < |rows| && rows[k].value == v
  }

  lemma ValueCountsOrdered(codes: seq<int>)
    ensures CountsNonIncreasing(ValueCounts(codes))
  {
    var rows := ValueCounts(codes);
    if codes != [] {
      forall i, j | 0 <= i < j < |rows| ensures rows[i].count >= rows[j].count {
        assert ByCountDescending(rows[i]) <= ByCountDescending(rows[j]);
      }
    }
  }

  lemma ValueCountsDistinct(codes: seq<int>)
    ensures DistinctBy(ValueCounts(codes), RowValue)
  {
    if codes != [] {
      var groups := Tally(codes);
      TallyCorrect(codes);
      var unsorted := Rows(groups, |codes|);
      assert DistinctBy(unsorted, RowValue) by {
        forall i, j | 0 <= i < j < |unsorted| ensures RowValue(unsorted[i]) != RowValue(unsorted[j]) {
          assert GroupValue(groups[i]) != GroupValue(groups[j]);
        }
      }
      SortByDistinct(unsorted, ByCountDescending, RowValue);
    }
  }

  lemma ValueCountsCounts(codes: seq<int>)
    ensures RowsCount(ValueCounts(codes), codes)
  {
    if codes != [] {
      var unsorted := Rows(Tally(codes), |codes|);
      var rows := SortBy(unsorted, ByCountDescending);
      assert ValueCounts(codes) == rows;
      forall k | 0 <= k < |rows| ensures RowCounts(rows[k], codes) {
        assert rows[k] in multiset(unsorted);
        TallyCorrect(codes);
        RowOfTally(Tally(codes), codes, rows[k]);
      }
    }
  }

  lemma RowOfTally(groups: seq<Group>, codes: seq<int>, row: CodeCount)
    requires codes != [] && TallyOf(groups, codes)
    requires row in multiset(Rows(groups, |codes|))
    ensures RowCounts(row, codes)
  {
    var unsorted := Rows(groups, |codes|);
    var m :| 0 <= m < |unsorted| && unsorted[m] == row;
    assert row == WithPercent(groups[m], |codes|);
  }

  lemma ValueCountsCover(codes: seq<int>)
    ensures RowsCover(ValueCounts(codes), codes)
  {
    if codes != [] {
      var groups := Tally(codes);
      TallyCorrect(codes);
      var unsorted := Rows(groups, |codes|);
      var rows := SortBy(unsorted, ByCountDescending);
      forall v | v in codes ensures exists k :: 0 <= k < |rows| && rows[k].value == v {
        var m :| 0 <= m < |groups| && groups[m].value == v;
        assert unsorted[m] in multiset(rows);
        var k :| 0 <= k < |rows| && rows[k] == unsorted[m];
      }
    }
  }

  function SumPercents(rows: seq<CodeCount>): real {
    if rows == [] then 0.0 else rows[0].percent + SumPercents(rows[1..])
  }

  lemma {:induction false} SumPercentsOfCounts(rows: seq<CodeCount>, total: nat)
    requires total > 0
    requires forall k :: 0 <= k < |rows| ==> rows[k].percent == Percent(rows[k].count, total)
    ensures SumPercents(rows) == Percent(SumBy(rows, RowCount), total)
  {
    if rows != [] {
      SumPercentsOfCounts(rows[1..], total);
      PercentAdd(rows[0].count, SumBy(rows[1..], RowCount), total);
    }
  }

  lemma PercentAdd(c: int, rest: int, total: nat)
    requires total > 0
    ensures Percent(c, total) + Percent(rest, total) == Percent(c + rest, total)
  {
  }

  lemma {:induction false} RowsSum(groups: seq<Group>, total: nat)
    requires total > 0
    ensures SumBy(Rows(groups, total), RowCount) == SumBy(groups, CountOf)
  {
    if groups != [] {
      RowsSum(groups[1..], total);
      assert Rows(groups, total)[1..] == Rows(groups[1..], total);
    }
  }

  /** The counts add up to the number of codes. */
  lemma ValueCountsSum(codes: seq<int>)
    ensures SumBy(ValueCounts(codes), RowCount) == |codes|
  {
    if codes != [] {
      var groups := Tally(codes);
      TallyCorrect(codes);
      RowsSum(groups, |codes|);
      SortBySum(Rows(groups, |codes|), ByCountDescending, RowCount);
    }
  }

  /** The percentages add up to 100. */
  lemma ValueCountsPercents(codes: seq<int>)
    requires codes != []
    ensures SumPercents(ValueCounts(codes)) == 100.0
  {
    var rows := ValueCounts(codes);
    ValueCountsSum(codes);
    assert forall k :: 0 <= k < |rows| ==> rows[k].percent == Percent(rows[k].count, |codes|) by {
      ValueCountsCounts(codes);
      forall k | 0 <= k < |rows| ensures rows[k].percent == Percent(rows[k].count, |codes|) {
        assert RowCounts(rows[k], codes);
      }
    }
    SumPercentsOfCounts(rows, |codes|);
    PercentOfWhole(|codes|);
  }

  lemma PercentOfWhole(n: nat)
    requires n > 0
    ensures Percent(n, n) == 100.0
  {
    var x := n as real;
    assert 100.0 * x / x == 100.0;
  }

  /** The `proto_code` column casts exactly when every row's code is an integer. */
  lemma ProtoCodeCast(ds: seq<Record>)
    ensures ColumnValues(ds, ProtoCode).Ok? <==> forall k :: 0 <= k < |ds| ==> ParseInt(ds[k].protoCode).Some?
  {
    assert forall k :: 0 <= k < |ds| ==> Cell(ds[k], ProtoCode) == ds[k].protoCode;
  }

  /**
   * `count_uniq_by_field(data_frame, field)`: `value_counts()` of the
   * `proto_code` column, whatever `field` says; `field` only names the
   * value column of the table.
   */
  function CountUniqByField(ds: seq<Record>, field: string): (r: Result<CodeTable, StatsError>)
    ensures r.Ok? <==> forall k :: 0 <= k < |ds| ==> ParseInt(ds[k].protoCode).Some?
    ensures r.Ok? ==> r.value.column == field
  {
    var cast := ColumnValues(ds, ProtoCode);
    ProtoCodeCast(ds);
    if cast.Ok? then Ok(CodeTable(field, ValueCounts(cast.value))) else Err(cast.error)
  }

  /**
   * The table of response codes: larger counts first, one row per distinct
   * code, each with its number of occurrences and its share in percent of
   * the rows; the counts add up to the number of rows and the percentages
   * to 100.
   */
  lemma CountUniqTable(ds: seq<Record>, field: string)
    requires CountUniqByField(ds, field).Ok?
    ensures var rows := CountUniqByField(ds, field).value.rows;
      var codes := ColumnValues(ds, ProtoCode).value;
      CountsNonIncreasing(rows) && DistinctBy(rows, RowValue) &&
      RowsCount(rows, codes) && RowsCover(rows, codes) &&
      SumBy(rows, RowCount) == Size(ds) &&
      (Size(ds) > 0 ==> SumPercents(rows) == 100.0)
  {
    var codes := ColumnValues(ds, ProtoCode).value;
    ValueCountsOrdered(codes);
    ValueCountsDistinct(codes);
    ValueCountsCounts(codes);
    ValueCountsCover(codes);
    ValueCountsSum(codes);
    if codes != [] {
      ValueCountsPercents(codes);
    }
  }

  /** `field` only names the value column: the rows are the same whatever it is. */
  lemma CountUniqIgnoresField(ds: seq<Record>, f: string, g: string)
    ensures CountUniqByField(ds, f).Ok? == CountUniqByField(ds, g).Ok?
    ensures CountUniqByField(ds, f).Ok? ==>
      CountUniqByField(ds, f).value.rows == CountUniqByField(ds, g).value.rows
  {
  }
}
