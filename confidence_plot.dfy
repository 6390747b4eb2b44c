/** The numeric half of the confidence plot: from per-minute increments of
    many iterations to a band of order statistics per minute (median, a
    lower and an upper percentile of the cumulative value), optionally
    re-expressed relative to the median. */
module ConfidencePlot {
  import opened Accumulate
  import opened SortOrder
  import opened DefaultSort
  import opened Arith

  /** The plot never looks past this many minutes. */
  const MAX_MINUTES: nat := 120

  /** A fraction num/den, used for the percentile bounds. */
  datatype Ratio = Ratio(num: nat, den: nat)

  /** A percentile bound strictly between 0 and 1. */
  type Percentile = r: Ratio | 0 < r.num < r.den witness Ratio(1, 2)

  /** The bounds the results page passes to every confidence plot. */
  const LOWER_DEFAULT: Percentile := Ratio(1, 40)   // 0.025
  const UPPER_DEFAULT: Percentile := Ratio(39, 40)  // 0.975

  /** A JavaScript value as it can end up in a band field. */
  datatype JsValue = Number(x: real) | NaN | Infinity(negative: bool) | Undefined

  /** One entry of the band: `{ value, upper, lower, minute }`. */
  datatype Datum = Datum(minute: nat, value: real, lower: JsValue, upper: JsValue)

  // ---------------------------------------------------------------------
  // Index arithmetic

  /** `floor(n * 0.5)`. */
  function MedianIndex(n: nat): (i: nat)
    ensures n >= 1 ==> i < n
  {
    n / 2
  }

  /** `floor(p * n)`; for a non-empty column it is a valid index. */
  function LowerIndex(n: nat, p: Percentile): (i: nat)
    ensures n >= 1 ==> i < n
  {
    LowerIndexBound(n, p);
    p.num * n / p.den
  }

  /** `ceil(p * n)`; it is at most n, one past the last index. */
  function UpperIndex(n: nat, p: Percentile): (i: nat)
    ensures i <= n
  {
    UpperIndexBound(n, p);
    (p.num * n + p.den - 1) / p.den
  }

  lemma LowerIndexBound(n: nat, p: Percentile)
    ensures n >= 1 ==> p.num * n / p.den < n
  {
    if n >= 1 {
      MulLe(p.num + 1, p.den, n);
      assert (p.num + 1) * n == p.num * n + n;
      FloorAtLeast(p.num * n, p.den, n);
    }
  }

  lemma UpperIndexBound(n: nat, p: Percentile)
    ensures (p.num * n + p.den - 1) / p.den <= n
  {
    MulLe(p.num, p.den, n);
    assert (n + 1) * p.den == n * p.den + p.den;
    FloorAtLeast(p.num * n + p.den - 1, p.den, n + 1);
  }

  /** `LowerIndex` is the floor of p*n and `UpperIndex` its ceiling. */
  lemma IndicesAreFloorAndCeiling(n: nat, lower: Percentile, upper: Percentile)
    ensures LowerIndex(n, lower) * lower.den <= lower.num * n < (LowerIndex(n, lower) + 1) * lower.den
    ensures upper.num * n <= UpperIndex(n, upper) * upper.den
    ensures UpperIndex(n, upper) == 0 || (UpperIndex(n, upper) - 1) * upper.den < upper.num * n
  {
    var q := UpperIndex(n, upper);
    FloorAtLeast(upper.num * n + upper.den - 1, upper.den, q + 1);
    assert (q + 1) * upper.den == q * upper.den + upper.den;
    FloorAtLeast(lower.num * n, lower.den, LowerIndex(n, lower) + 1);
    FloorAtLeast(lower.num * n, lower.den, LowerIndex(n, lower));
    if q > 0 {
      FloorAtLeast(upper.num * n + upper.den - 1, upper.den, q);
      assert q * upper.den == (q - 1) * upper.den + upper.den;
    }
  }

  /** For a non-empty column the median and lower indices are in range; the
      upper index is at most n, and is exactly n (one past the end, with no
      clamp) when n * (1 - p) < 1. */
  lemma IndicesInRange(n: nat, lower: Percentile, upper: Percentile)
    requires n >= 1
    ensures MedianIndex(n) < n
    ensures LowerIndex(n, lower) < n
    ensures UpperIndex(n, upper) <= n
    ensures UpperIndex(n, upper) == n <==> n * (upper.den - upper.num) < upper.den
  {
    FloorAtLeast(upper.num * n + upper.den - 1, upper.den, n);
    assert n * (upper.den - upper.num) == n * upper.den - upper.num * n;
  }

  /** With the page's 0.975, the upper index falls past the end exactly when
      fewer than 40 iterations are plotted. */
  lemma DefaultUpperPastEnd(n: nat)
    requires n >= 1
    ensures UpperIndex(n, UPPER_DEFAULT) == n <==> n < 40
  {
    IndicesInRange(n, LOWER_DEFAULT, UPPER_DEFAULT);
  }

  /** With p_lo <= 1/2 the lower index is at most the median index. */
  lemma LowerBelowMedian(n: nat, lower: Percentile)
    requires 2 * lower.num <= lower.den
    ensures LowerIndex(n, lower) <= MedianIndex(n)
  {
    var q := LowerIndex(n, lower);
    var d := lower.den;
    FloorAtLeast(lower.num * n, d, q);
    MulLe(2 * lower.num, d, n);
    assert (2 * lower.num) * n == 2 * (lower.num * n);
    assert (2 * q) * d == 2 * (q * d);
    MulLeCancel(2 * q, n, d);
  }

  /** With 1/2 <= p_hi the median index is at most the upper index. */
  lemma MedianBelowUpper(n: nat, upper: Percentile)
    requires upper.den <= 2 * upper.num
    ensures MedianIndex(n) <= UpperIndex(n, upper)
  {
    var h := n / 2;
    var d := upper.den;
    MulLe(d, 2 * upper.num, h);
    assert h * (2 * upper.num) == (2 * h) * upper.num;
    MulLe(2 * h, n, upper.num);
    FloorAtLeast(upper.num * n + d - 1, d, h);
  }

  /** With p_lo <= 1/2 <= p_hi the picked indices are ordered. */
  lemma IndicesOrdered(n: nat, lower: Percentile, upper: Percentile)
    requires 2 * lower.num <= lower.den && upper.den <= 2 * upper.num
    ensures LowerIndex(n, lower) <= MedianIndex(n) <= UpperIndex(n, upper)
  {
    LowerBelowMedian(n, lower);
    MedianBelowUpper(n, upper);
  }

  // ---------------------------------------------------------------------
  // JavaScript arithmetic on band fields

  /** `a - v` in JavaScript, for a number `v`. */
  function Minus(a: JsValue, v: real): (r: JsValue)
    ensures a.Number? <==> r.Number?
    ensures a.Number? ==> r.x + v == a.x
    ensures a.Infinity? ==> r == a
    ensures a == Undefined || a == NaN ==> r == NaN
  {
    match a
    case Number(x) => Number(x - v)
    case Infinity(neg) => Infinity(neg)
    case _ => NaN
  }

  /** `a / v` in JavaScript, for a number `v` that is not negative zero. */
  function Divide(a: JsValue, v: real): (r: JsValue)
    ensures v != 0.0 && a.Number? ==> r.Number? && r.x * v == a.x
    ensures v == 0.0 ==> !r.Number?
    ensures v == 0.0 && a.Number? ==> (r == NaN <==> a.x == 0.0)
  {
    match a
    case Number(x) =>
      if v != 0.0 then Number(x / v)
      else if x == 0.0 then NaN
      else Infinity(x < 0.0)
    case Infinity(neg) => Infinity(if v < 0.0 then !neg else neg)
    case _ => NaN
  }

  // ---------------------------------------------------------------------
  // Specification of the band

  /** How many minutes the plot covers: `min(data[0].length, 120)`. */
  function Minutes(data: seq<seq<nat>>): (m: nat)
    requires |data| > 0
    ensures m <= MAX_MINUTES && m <= |data[0]|
    ensures m == MAX_MINUTES || m == |data[0]|
  {
    if |data[0]| < MAX_MINUTES then |data[0]| else MAX_MINUTES
  }

  /** Every iteration's cumulative value at `minute`, in iteration order. */
  function ColumnAt(data: seq<seq<nat>>, minute: nat): (column: seq<nat>)
    requires RowsCover(data, minute + 1)
  {
    seq(|data|, i requires 0 <= i < |data| => Cum(data[i], minute))
  }

  /** The band entry for one minute, picked from that minute's sorted values.
      An upper index past the end reads `undefined`. */
  function BandAt(sorted: seq<nat>, minute: nat, lower: Percentile, upper: Percentile): (d: Datum)
    requires |sorted| > 0
    ensures d.minute == minute && d.lower.Number?
    ensures d.upper.Number? || d.upper == Undefined
    ensures d.upper == Undefined <==> |sorted| * (upper.den - upper.num) < upper.den
  {
    var n := |sorted|;
    IndicesInRange(n, lower, upper);
    var u := UpperIndex(n, upper);
    Datum(minute,
          sorted[MedianIndex(n)] as real,
          Number(sorted[LowerIndex(n, lower)] as real),
          if u < n then Number(sorted[u] as real) else Undefined)
  }

  /** The band entry for `minute`: that minute's column, sorted by `le`. */
  function BandOfMinute(data: seq<seq<nat>>, minute: nat, lower: Percentile, upper: Percentile,
                        le: (nat, nat) -> bool): Datum
    requires |data| > 0 && RowsCover(data, minute + 1)
  {
    BandAt(SortBy(ColumnAt(data, minute), le), minute, lower, upper)
  }

  /** The band before normalisation: one entry per minute 1 .. minutes-1,
      each picked from that minute's values sorted by `le`. */
  function ConfidenceBand(data: seq<seq<nat>>, lower: Percentile, upper: Percentile,
                          le: (nat, nat) -> bool): (band: seq<Datum>)
    requires |data| > 0 && RowsCover(data, Minutes(data))
    ensures |band| == if Minutes(data) == 0 then 0 else Minutes(data) - 1
    ensures forall k :: 0 <= k < |band| ==> band[k].minute == k + 1
  {
    var count := if Minutes(data) == 0 then 0 else Minutes(data) - 1;
    seq(count, k requires 0 <= k < count => BandOfMinute(data, k + 1, lower, upper, le))
  }

  /** The band re-expressed as an offset from the median. */
  function Recentred(d: Datum): (r: Datum)
    ensures r.minute == d.minute && r.value == 0.0
    ensures d.upper == Undefined ==> r.upper == NaN
    ensures d.lower.Number? && d.upper.Number? ==>
              r.lower.Number? && r.upper.Number? && r.upper.x - r.lower.x == d.upper.x - d.lower.x
    ensures d.lower.Number? ==> r.lower.Number? && (r.lower.x <= 0.0 <==> d.lower.x <= d.value)
    ensures d.upper.Number? ==> r.upper.Number? && (0.0 <= r.upper.x <==> d.value <= d.upper.x)
  {
    var withUpper := d.(upper := Minus(d.upper, d.value));
    var withLower := withUpper.(lower := Minus(withUpper.lower, withUpper.value));
    withLower.(value := 0.0)
  }

  /** The band as a fraction of the median, by JavaScript division: exact
      when the median is non-zero, not a finite number when it is zero. */
  function AsPercentage(d: Datum): (r: Datum)
    ensures r.minute == d.minute && r.value == 0.0
    ensures d.value != 0.0 && d.upper.Number? ==> r.upper == Number((d.upper.x - d.value) / d.value)
    ensures d.value != 0.0 && d.lower.Number? ==> r.lower == Number((d.lower.x - d.value) / d.value)
    ensures d.value == 0.0 ==> !r.upper.Number? && !r.lower.Number?
  {
    var withUpper := d.(upper := Divide(Minus(d.upper, d.value), d.value));
    var withLower := withUpper.(lower := Divide(Minus(withUpper.lower, withUpper.value), withUpper.value));
    withLower.(value := 0.0)
  }

  /** The post-pass: `recenter` wins over `percentage`; with neither flag
      the entry is unchanged. */
  function Normalised(d: Datum, recenter: bool, percentage: bool): (r: Datum)
    ensures r.minute == d.minute
    ensures recenter || percentage ==> r.value == 0.0
    ensures !recenter && !percentage ==> r == d
  {
    if recenter then Recentred(d)
    else if percentage then AsPercentage(d)
    else d
  }

  /** The post-pass applied to every entry of a band. */
  function NormalisedBand(band: seq<Datum>, recenter: bool, percentage: bool): (r: seq<Datum>)
  {
    seq(|band|, k requires 0 <= k < |band| => Normalised(band[k], recenter, percentage))
  }

  // ---------------------------------------------------------------------
  // The imperative code

  /** The running-sum loops: first minutes copied, then each minute appended
      to every iteration's row. */
  method CumulativeSums(data: seq<seq<nat>>, minutes: nat) returns (cumulative: seq<seq<nat>>)
    requires 1 <= minutes && RowsCover(data, minutes)
    ensures cumulative == CumulativeRows(data, minutes)
  {
    cumulative := FirstMinuteRows(data);
    for minute := 1 to minutes
      invariant |cumulative| == |data|
      invariant forall j :: 0 <= j < |data| ==> cumulative[j] == CumRow(data[j], minute)
    {
      cumulative := ExtendRows(data, cumulative, minute);
    }
    RowsAreCumulative(cumulative, data, minutes);
  }

  /** One round of the outer running-sum loop: append minute `minute` to
      every iteration's row. */
  method ExtendRows(data: seq<seq<nat>>, cumulative: seq<seq<nat>>, minute: nat)
    returns (extended: seq<seq<nat>>)
    requires 1 <= minute && RowsCover(data, minute + 1)
    requires |cumulative| == |data|
    requires forall j :: 0 <= j < |data| ==> cumulative[j] == CumRow(data[j], minute)
    ensures |extended| == |data|
    ensures forall j :: 0 <= j < |data| ==> extended[j] == CumRow(data[j], minute + 1)
  {
    extended := cumulative;
    for iteration := 0 to |data|
      invariant |extended| == |data|
      invariant forall j :: 0 <= j < iteration ==> extended[j] == CumRow(data[j], minute + 1)
      invariant forall j :: iteration <= j < |data| ==> extended[j] == CumRow(data[j], minute)
    {
      var row := extended[iteration];
      assert row[minute - 1] == Cum(data[iteration], minute - 1);
      var val := row[minute - 1] + data[iteration][minute];
      assert row + [val] == CumRow(data[iteration], minute + 1);
      extended := extended[iteration := row + [val]];
    }
  }

  /** One round of the per-minute loop: gather the minute's values, sort
      them in place with `le`, and pick the median, lower and upper order
      statistics. */
  method BandForMinute(data: seq<seq<nat>>, cumulative: seq<seq<nat>>, minute: nat, minutes: nat,
                       lower: Percentile, upper: Percentile, le: (nat, nat) -> bool)
    returns (datum: Datum)
    requires |data| > 0 && minute < minutes && RowsCover(data, minutes)
    requires cumulative == CumulativeRows(data, minutes)
    requires TotalOrder(le)
    ensures datum == BandOfMinute(data, minute, lower, upper, le)
  {
    var iterations := |data|;
    var valuesThisMinute := new nat[iterations];
    for iteration := 0 to iterations
      invariant forall j :: 0 <= j < iteration ==> valuesThisMinute[j] == Cum(data[j], minute)
    {
      valuesThisMinute[iteration] := cumulative[iteration][minute];
    }
    assert valuesThisMinute[..] == ColumnAt(data, minute);
    SortInPlace(valuesThisMinute, le);
    ghost var sorted := SortBy(ColumnAt(data, minute), le);
    assert valuesThisMinute[..] == sorted;
    var n := valuesThisMinute.Length;
    IndicesInRange(n, lower, upper);
    var value := valuesThisMinute[MedianIndex(n)];
    var lowerValue := valuesThisMinute[LowerIndex(n, lower)];
    var u := UpperIndex(n, upper);
    var upperValue := if u < n then Number(valuesThisMinute[u] as real) else Undefined;
    datum := Datum(minute, value as real, Number(lowerValue as real), upperValue);
  }

  /** The per-minute loop, minutes 1 .. minutes-1 in order. */
  method ExtractBand(data: seq<seq<nat>>, cumulative: seq<seq<nat>>, minutes: nat,
                     lower: Percentile, upper: Percentile, le: (nat, nat) -> bool)
    returns (ret: seq<Datum>)
    requires |data| > 0 && 1 <= minutes == Minutes(data) && RowsCover(data, minutes)
    requires cumulative == CumulativeRows(data, minutes)
    requires TotalOrder(le)
    ensures ret == ConfidenceBand(data, lower, upper, le)
  {
    ghost var band := ConfidenceBand(data, lower, upper, le);
    ret := [];
    for minute := 1 to minutes
      invariant ret == band[..minute - 1]
    {
      var datum := BandForMinute(data, cumulative, minute, minutes, lower, upper, le);
      assert datum == band[minute - 1];
      assert band[..minute] == band[..minute - 1] + [band[minute - 1]];
      ret := ret + [datum];
    }
    assert band[..minutes - 1] == band;
  }

  /** The post-pass over the band, field by field as the component updates
      each entry. */
  method NormaliseBand(band: seq<Datum>, recenter: bool, percentage: bool) returns (ret: seq<Datum>)
    ensures ret == NormalisedBand(band, recenter, percentage)
  {
    ret := band;
    if recenter {
      for k := 0 to |ret|
        invariant |ret| == |band|
        invariant forall j :: 0 <= j < k ==> ret[j] == Recentred(band[j])
        invariant forall j :: k <= j < |ret| ==> ret[j] == band[j]
      {
        var datum := ret[k];
        datum := datum.(upper := Minus(datum.upper, datum.value));
        datum := datum.(lower := Minus(datum.lower, datum.value));
        datum := datum.(value := 0.0);
        ret := ret[k := datum];
      }
    } else if percentage {
      for k := 0 to |ret|
        invariant |ret| == |band|
        invariant forall j :: 0 <= j < k ==> ret[j] == AsPercentage(band[j])
        invariant forall j :: k <= j < |ret| ==> ret[j] == band[j]
      {
        var datum := ret[k];
        datum := datum.(upper := Minus(datum.upper, datum.value));
        datum := datum.(upper := Divide(datum.upper, datum.value));
        datum := datum.(lower := Minus(datum.lower, datum.value));
        datum := datum.(lower := Divide(datum.lower, datum.value));
        datum := datum.(value := 0.0);
        ret := ret[k := datum];
      }
    }
  }

  /** `getDataWithConfidenceBand`, with the sort's comparison as a parameter:
      the component sorts with `DefaultSortLe` (see `GetDataAsWritten`). */
  method GetDataWithConfidenceBand(data: seq<seq<nat>>, lower: Percentile, upper: Percentile,
                                   recenter: bool, percentage: bool, le: (nat, nat) -> bool)
    returns (ret: seq<Datum>)
    requires |data| > 0 && RowsCover(data, Minutes(data))
    requires TotalOrder(le)
    ensures ret == NormalisedBand(ConfidenceBand(data, lower, upper, le), recenter, percentage)
  {
    var minutes := Minutes(data);
    if minutes == 0 {
      // the rows then start with `undefined`, which no loop reads
      return [];
    }
    var cumulative := CumulativeSums(data, minutes);
    ret := ExtractBand(data, cumulative, minutes, lower, upper, le);
    ret := NormaliseBand(ret, recenter, percentage);
  }

  /** The component as written: the values are sorted by `sort()` with no
      comparator. */
  method GetDataAsWritten(data: seq<seq<nat>>, lower: Percentile, upper: Percentile,
                          recenter: bool, percentage: bool)
    returns (ret: seq<Datum>)
    requires |data| > 0 && RowsCover(data, Minutes(data))
    ensures ret == NormalisedBand(ConfidenceBand(data, lower, upper, DefaultSortLe), recenter, percentage)
  {
    DefaultSortIsTotalOrder();
    ret := GetDataWithConfidenceBand(data, lower, upper, recenter, percentage, DefaultSortLe);
  }

  // ---------------------------------------------------------------------
  // Properties of the band

  /** Each picked value is one of that minute's cumulative values. */
  lemma BandPicksFromColumn(data: seq<seq<nat>>, minute: nat, lower: Percentile, upper: Percentile,
                            le: (nat, nat) -> bool)
    requires |data| > 0 && RowsCover(data, minute + 1)
    ensures var d := BandOfMinute(data, minute, lower, upper, le);
            d.minute == minute &&
            (exists i :: 0 <= i < |data| && d.value == Cum(data[i], minute) as real) &&
            (exists i :: 0 <= i < |data| && d.lower == Number(Cum(data[i], minute) as real)) &&
            (d.upper.Number? ==> exists i :: 0 <= i < |data| && d.upper == Number(Cum(data[i], minute) as real))
  {
    var column := ColumnAt(data, minute);
    var sorted := SortBy(column, le);
    var n := |sorted|;
    assert n == |data| by {
      assert |multiset(sorted)| == |multiset(column)|;
    }
    IndicesInRange(n, lower, upper);
    forall idx | 0 <= idx < n
      ensures exists i :: 0 <= i < |data| && sorted[idx] == Cum(data[i], minute)
    {
      assert sorted[idx] in multiset(column);
      var i :| 0 <= i < |column| && column[i] == sorted[idx];
    }
  }

  /** In a sorted column, lower, value and upper (when in range) come in the
      sort's own order when p_lo <= 1/2 <= p_hi. */
  lemma BandOrderedBy(sorted: seq<nat>, minute: nat, lower: Percentile, upper: Percentile,
                      le: (nat, nat) -> bool)
    requires |sorted| > 0 && SortedBy(sorted, le) && TotalOrder(le)
    requires 2 * lower.num <= lower.den && upper.den <= 2 * upper.num
    ensures var n := |sorted|;
            le(sorted[LowerIndex(n, lower)], sorted[MedianIndex(n)]) &&
            (UpperIndex(n, upper) < n ==> le(sorted[MedianIndex(n)], sorted[UpperIndex(n, upper)]))
  {
    var n := |sorted|;
    IndicesInRange(n, lower, upper);
    IndicesOrdered(n, lower, upper);
    var lo, md, up := LowerIndex(n, lower), MedianIndex(n), UpperIndex(n, upper);
    SortedPick(sorted, lo, md, le);
    if up < n {
      SortedPick(sorted, md, up, le);
    }
  }

  /** In a sorted sequence an entry comes no later than any entry at or
      after its position. */
  lemma SortedPick(sorted: seq<nat>, i: nat, j: nat, le: (nat, nat) -> bool)
    requires SortedBy(sorted, le) && TotalOrder(le) && i <= j < |sorted|
    ensures le(sorted[i], sorted[j])
  {
    if i == j {
      var x := sorted[i];
      assert le(x, x) || le(x, x);
    }
  }

  /** Sorted numerically, the band satisfies lower <= value <= upper and,
      recentred, lower <= 0 <= upper with the width kept. */
  lemma NumericBandOrdered(data: seq<seq<nat>>, minute: nat, lower: Percentile, upper: Percentile)
    requires |data| > 0 && RowsCover(data, minute + 1)
    requires 2 * lower.num <= lower.den && upper.den <= 2 * upper.num
    ensures var d := BandOfMinute(data, minute, lower, upper, NumericLe);
            d.lower.Number? && d.lower.x <= d.value &&
            (d.upper.Number? ==> d.value <= d.upper.x)
    ensures var r := Recentred(BandOfMinute(data, minute, lower, upper, NumericLe));
            r.value == 0.0 && r.lower.Number? && r.lower.x <= 0.0 &&
            (r.upper.Number? ==> 0.0 <= r.upper.x)
  {
    NumericIsTotalOrder();
    var column := ColumnAt(data, minute);
    var sorted := SortBy(column, NumericLe);
    assert |sorted| == |data| by {
      assert |multiset(sorted)| == |multiset(column)|;
    }
    BandOrderedBy(sorted, minute, lower, upper, NumericLe);
  }

  /** What the band looks like for two iterations whose cumulative values at
      minute 1 are 9 and 10. */
  lemma NineAndTen()
    ensures ColumnAt([[9, 0], [10, 0]], 1) == [9, 10]
    ensures Minutes([[9, 0], [10, 0]]) == 2
  {
  }

  /** The default sort puts 10 before 9, so with the page's bounds the band
      at minute 1 has lower = 10 above value = 9, and the recentred band has
      lower = 1 above zero. */
  lemma DefaultSortBreaksBand()
    ensures var band := ConfidenceBand([[9, 0], [10, 0]], LOWER_DEFAULT, UPPER_DEFAULT, DefaultSortLe);
            |band| == 1 &&
            band[0] == Datum(1, 9.0, Number(10.0), Undefined) &&
            band[0].lower.x > band[0].value &&
            Recentred(band[0]).lower == Number(1.0)
  {
    var data := [[9, 0], [10, 0]];
    NineAndTen();
    TenSortsBeforeNine();
    assert SortBy([10], DefaultSortLe) == [10];
    assert SortBy([9, 10], DefaultSortLe) == Insert(9, [10], DefaultSortLe);
    assert Insert(9, [10], DefaultSortLe) == [10, 9];
    assert LowerIndex(2, LOWER_DEFAULT) == 0;
    assert UpperIndex(2, UPPER_DEFAULT) == 2;
    assert BandAt([10, 9], 1, LOWER_DEFAULT, UPPER_DEFAULT) == Datum(1, 9.0, Number(10.0), Undefined);
  }

  /** Sorted numerically, the same input gives lower = 9 <= value = 10. */
  lemma NumericSortKeepsBand()
    ensures var band := ConfidenceBand([[9, 0], [10, 0]], LOWER_DEFAULT, UPPER_DEFAULT, NumericLe);
            |band| == 1 && band[0] == Datum(1, 10.0, Number(9.0), Undefined)
  {
    NineAndTen();
    assert SortBy([10], NumericLe) == [10];
    assert SortBy([9, 10], NumericLe) == Insert(9, [10], NumericLe);
    assert LowerIndex(2, LOWER_DEFAULT) == 0;
    assert UpperIndex(2, UPPER_DEFAULT) == 2;
    assert BandAt([9, 10], 1, LOWER_DEFAULT, UPPER_DEFAULT) == Datum(1, 10.0, Number(9.0), Undefined);
  }

  /** `recenter` takes precedence over `percentage`; with neither flag the
      band is returned as extracted. */
  lemma ModePrecedence(band: seq<Datum>, percentage: bool)
    ensures NormalisedBand(band, true, percentage) == NormalisedBand(band, true, false)
    ensures NormalisedBand(band, false, false) == band
    ensures forall k :: 0 <= k < |band| ==> NormalisedBand(band, true, percentage)[k].value == 0.0
  {
  }
}
