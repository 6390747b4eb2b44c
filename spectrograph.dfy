/** The numeric half of the spectrograph: the first `count` iterations'
    cumulative accessibility over 120 minutes, binned into a 500-row by
    120-column grid of counts (a row-major `Uint16Array`), row 0 holding
    the highest value seen. */
module Spectrograph {
  import opened Accumulate
  import opened Arith

  const MINUTES: nat := 120
  const CANVAS_HEIGHT: nat := 500
  /** Number of cells of the grid. */
  const CELLS: nat := MINUTES * CANVAS_HEIGHT
  /** A `Uint16Array` cell holds its value modulo this. */
  const UINT16_RANGE: nat := 65536

  /** The running maximum of cell values: a count, or `NaN` once
      `Math.max` has seen `undefined`. */
  datatype PixelMax = Count(n: int) | NaN

  /** `Math.max(a, b)` for a number `b`. */
  function JsMax(a: PixelMax, b: int): (r: PixelMax)
    ensures a.NaN? <==> r.NaN?
    ensures r.Count? ==> b <= r.n && a.n <= r.n && (r.n == b || r.n == a.n)
  {
    match a
    case NaN => NaN
    case Count(n) => Count(if b > n then b else n)
  }

  /** How many rows `data.slice(0, count)` keeps. */
  function SliceLength(data: seq<seq<nat>>, count: nat): (len: nat)
    ensures len <= |data| && len <= count
    ensures len == |data| || len == count
  {
    if count < |data| then count else |data|
  }

  // ---------------------------------------------------------------------
  // Row of a value

  /** `yPixel`: the row a cumulative value `c` lands in, for a positive
      maximum, computed exactly as `499 - floor(c * 499 / max)`. */
  function Row(c: nat, maxAccessibility: nat): (y: int)
    requires 0 < maxAccessibility
    ensures y < CANVAS_HEIGHT
  {
    CANVAS_HEIGHT - 1 - c * (CANVAS_HEIGHT - 1) / maxAccessibility
  }

  /** A value within [0, max] lands in a row of the canvas, and its cell
      index lies in the grid. */
  lemma RowInCanvas(c: nat, maxAccessibility: nat, minute: nat)
    requires 0 < maxAccessibility && c <= maxAccessibility && minute < MINUTES
    ensures 0 <= Row(c, maxAccessibility) < CANVAS_HEIGHT
    ensures 0 <= Row(c, maxAccessibility) * MINUTES + minute < CELLS
  {
    DivMonotone(c * (CANVAS_HEIGHT - 1), (CANVAS_HEIGHT - 1) * maxAccessibility, maxAccessibility);
    DivMulCancel(CANVAS_HEIGHT - 1, maxAccessibility);
  }

  /** The maximum lands in row 0, zero in the last row. */
  lemma RowEnds(maxAccessibility: nat)
    requires 0 < maxAccessibility
    ensures Row(maxAccessibility, maxAccessibility) == 0
    ensures Row(0, maxAccessibility) == CANVAS_HEIGHT - 1
  {
    DivMulCancel(CANVAS_HEIGHT - 1, maxAccessibility);
    assert maxAccessibility * (CANVAS_HEIGHT - 1) == (CANVAS_HEIGHT - 1) * maxAccessibility;
  }

  /** A larger value never lands in a larger row number. */
  lemma RowMonotone(c1: nat, c2: nat, maxAccessibility: nat)
    requires 0 < maxAccessibility && c1 <= c2
    ensures Row(c2, maxAccessibility) <= Row(c1, maxAccessibility)
  {
    DivMonotone(c1 * (CANVAS_HEIGHT - 1), c2 * (CANVAS_HEIGHT - 1), maxAccessibility);
  }

  /** Decomposition of a flat row-major index. */
  lemma FlatIndex(y: int, m: nat)
    requires m < MINUTES
    ensures (y * MINUTES + m) / MINUTES == y
    ensures (y * MINUTES + m) % MINUTES == m
  {
  }

  // ---------------------------------------------------------------------
  // Specification of the grid

  /** Every cumulative row has exactly 120 minutes, each value at most `max`. */
  predicate Bounded(cumulative: seq<seq<nat>>, maxAccessibility: nat)
  {
    (forall i :: 0 <= i < |cumulative| ==> |cumulative[i]| == MINUTES) &&
    (forall i, m :: 0 <= i < |cumulative| && 0 <= m < MINUTES ==> cumulative[i][m] <= maxAccessibility)
  }

  /** How many of the first `n` iterations land in row `y` at `minute`. */
  function Hits(cumulative: seq<seq<nat>>, n: nat, maxAccessibility: nat, y: int, minute: nat): (h: nat)
    requires n <= |cumulative| && 0 < maxAccessibility
    requires forall i :: 0 <= i < n ==> minute < |cumulative[i]|
    ensures h <= n
  {
    if n == 0 then 0
    else Hits(cumulative, n - 1, maxAccessibility, y, minute)
         + (if Row(cumulative[n - 1][minute], maxAccessibility) == y then 1 else 0)
  }

  /** Cell `k` after binning the first `n` iterations: their hit count as a
      `Uint16Array` stores it; with a zero maximum nothing is stored. */
  function Cell(cumulative: seq<seq<nat>>, n: nat, maxAccessibility: nat, k: nat): (v: int)
    requires n <= |cumulative|
    requires forall i :: 0 <= i < |cumulative| ==> |cumulative[i]| == MINUTES
    ensures 0 <= v < UINT16_RANGE
  {
    if maxAccessibility == 0 then 0
    else Hits(cumulative, n, maxAccessibility, k / MINUTES, k % MINUTES) % UINT16_RANGE
  }

  /** The whole grid after binning every iteration. */
  function BinnedGrid(cumulative: seq<seq<nat>>, maxAccessibility: nat): (grid: seq<int>)
    requires forall i :: 0 <= i < |cumulative| ==> |cumulative[i]| == MINUTES
    ensures |grid| == CELLS
    ensures forall k :: 0 <= k < CELLS ==> 0 <= grid[k] < UINT16_RANGE
    ensures maxAccessibility == 0 ==> forall k :: 0 <= k < CELLS ==> grid[k] == 0
  {
    seq(CELLS, k requires 0 <= k < CELLS => Cell(cumulative, |cumulative|, maxAccessibility, k))
  }

  // ---------------------------------------------------------------------
  // The imperative code

  /** One round of the outer running-sum loop: append minute `minute` to
      every iteration's row and fold the new values into the maximum. */
  method AppendMinute(data: seq<seq<nat>>, cumulative: seq<seq<nat>>, minute: nat, maxBefore: nat)
    returns (extended: seq<seq<nat>>, maxAccessibility: nat)
    requires 1 <= minute < MINUTES && RowsCover(data, MINUTES)
    requires |cumulative| == |data|
    requires forall j :: 0 <= j < |data| ==> cumulative[j] == CumRow(data[j], minute)
    ensures |extended| == |data|
    ensures forall j :: 0 <= j < |data| ==> extended[j] == CumRow(data[j], minute + 1)
    ensures maxBefore <= maxAccessibility
    ensures forall j :: 0 <= j < |data| ==> Cum(data[j], minute) <= maxAccessibility
    ensures maxAccessibility == maxBefore ||
            exists j :: 0 <= j < |data| && Cum(data[j], minute) == maxAccessibility
  {
    extended := cumulative;
    maxAccessibility := maxBefore;
    for iteration := 0 to |data|
      invariant |extended| == |data|
      invariant forall j :: 0 <= j < iteration ==> extended[j] == CumRow(data[j], minute + 1)
      invariant forall j :: iteration <= j < |data| ==> extended[j] == CumRow(data[j], minute)
      invariant maxBefore <= maxAccessibility
      invariant forall j :: 0 <= j < iteration ==> Cum(data[j], minute) <= maxAccessibility
      invariant maxAccessibility == maxBefore ||
                exists j :: 0 <= j < iteration && Cum(data[j], minute) == maxAccessibility
    {
      var row := extended[iteration];
      assert row[minute - 1] == Cum(data[iteration], minute - 1);
      var val := row[minute - 1] + data[iteration][minute];
      assert row + [val] == CumRow(data[iteration], minute + 1);
      extended := extended[iteration := row + [val]];
      maxAccessibility := if val > maxAccessibility then val else maxAccessibility;
    }
  }

  /** The running-sum loops over exactly 120 minutes, tracking the largest
      cumulative value of minutes 1 .. 119. */
  method CumulativeWithMax(data: seq<seq<nat>>) returns (cumulative: seq<seq<nat>>, maxAccessibility: nat)
    requires RowsCover(data, MINUTES)
    ensures cumulative == CumulativeRows(data, MINUTES)
    ensures forall i, m :: 0 <= i < |data| && 1 <= m < MINUTES ==> Cum(data[i], m) <= maxAccessibility
    ensures forall i :: 0 <= i < |data| ==> Cum(data[i], 0) <= maxAccessibility
    ensures |data| == 0 ==> maxAccessibility == 0
    ensures |data| > 0 ==>
              exists i, m :: 0 <= i < |data| && 1 <= m < MINUTES && Cum(data[i], m) == maxAccessibility
  {
    cumulative := FirstMinuteRows(data);
    maxAccessibility := 0;
    ghost var wi, wm := 0, 1;
    for minute := 1 to MINUTES
      invariant |cumulative| == |data|
      invariant forall j :: 0 <= j < |data| ==> cumulative[j] == CumRow(data[j], minute)
      invariant forall j, m :: 0 <= j < |data| && 1 <= m < minute ==> Cum(data[j], m) <= maxAccessibility
      invariant maxAccessibility == 0 ||
                (wi < |data| && 1 <= wm < minute && Cum(data[wi], wm) == maxAccessibility)
    {
      var maxBefore := maxAccessibility;
      cumulative, maxAccessibility := AppendMinute(data, cumulative, minute, maxAccessibility);
      if maxAccessibility != maxBefore {
        wi :| 0 <= wi < |data| && Cum(data[wi], minute) == maxAccessibility;
        wm := minute;
      }
      forall j, m | 0 <= j < |data| && 1 <= m < minute + 1
        ensures Cum(data[j], m) <= maxAccessibility
      {
        if m < minute {
          assert Cum(data[j], m) <= maxBefore;
        }
      }
    }
    RowsAreCumulative(cumulative, data, MINUTES);
    forall i | 0 <= i < |data|
      ensures Cum(data[i], 0) <= maxAccessibility
    {
      CumMonotone(data[i], 0, 1);
    }
    if |data| > 0 && maxAccessibility == 0 {
      assert Cum(data[0], 1) == maxAccessibility;
    }
  }

  /** Invariant of the binning loops once `done` iterations, plus minutes
      before `minute` of the next, are binned into `g`. */
  ghost predicate BinnedSoFar(g: seq<int>, cumulative: seq<seq<nat>>, maxAccessibility: nat,
                              done: nat, minute: nat, maxPixelValue: PixelMax, wk: nat)
    requires Bounded(cumulative, maxAccessibility) && done <= |cumulative|
    requires minute > 0 ==> done < |cumulative|
  {
    |g| == CELLS &&
    (forall k :: 0 <= k < CELLS ==>
       g[k] == Cell(cumulative, if k % MINUTES < minute then done + 1 else done, maxAccessibility, k)) &&
    (maxAccessibility == 0 ==> maxPixelValue == if done == 0 && minute == 0 then Count(0) else NaN) &&
    (maxAccessibility > 0 ==> maxPixelValue.Count? && forall k :: 0 <= k < CELLS ==> g[k] <= maxPixelValue.n) &&
    (maxAccessibility > 0 && |cumulative| < UINT16_RANGE ==> wk < CELLS && g[wk] == maxPixelValue.n)
  }

  /** One round of the outer binning loop: bin every minute of iteration
      `iteration`. */
  method BinIteration(g: array<int>, cumulative: seq<seq<nat>>, maxAccessibility: nat, iteration: nat,
                      maxBefore: PixelMax, ghost wkBefore: nat)
    returns (maxPixelValue: PixelMax, ghost wk: nat)
    requires Bounded(cumulative, maxAccessibility) && iteration < |cumulative|
    requires BinnedSoFar(g[..], cumulative, maxAccessibility, iteration, 0, maxBefore, wkBefore)
    modifies g
    ensures BinnedSoFar(g[..], cumulative, maxAccessibility, iteration + 1, 0, maxPixelValue, wk)
  {
    maxPixelValue, wk := maxBefore, wkBefore;
    for minute := 0 to MINUTES
      invariant BinnedSoFar(g[..], cumulative, maxAccessibility, iteration, minute, maxPixelValue, wk)
    {
      maxPixelValue, wk := BinValue(g, cumulative, maxAccessibility, iteration, minute, maxPixelValue, wk);
    }
    assert forall k :: 0 <= k < CELLS ==> k % MINUTES < MINUTES;
  }

  /** The body of the binning loops for one (iteration, minute) value. */
  method BinValue(g: array<int>, cumulative: seq<seq<nat>>, maxAccessibility: nat, iteration: nat,
                  minute: nat, maxBefore: PixelMax, ghost wkBefore: nat)
    returns (maxPixelValue: PixelMax, ghost wk: nat)
    requires Bounded(cumulative, maxAccessibility) && iteration < |cumulative| && minute < MINUTES
    requires BinnedSoFar(g[..], cumulative, maxAccessibility, iteration, minute, maxBefore, wkBefore)
    modifies g
    ensures BinnedSoFar(g[..], cumulative, maxAccessibility, iteration, minute + 1, maxPixelValue, wk)
  {
    maxPixelValue, wk := maxBefore, wkBefore;
    if maxAccessibility == 0 {
      maxPixelValue := NaN;
      assert forall k :: 0 <= k < CELLS ==> g[k] == Cell(cumulative, iteration, maxAccessibility, k);
    } else {
      var c := cumulative[iteration][minute];
      RowInCanvas(c, maxAccessibility, minute);
      var yPixel := Row(c, maxAccessibility);
      var idx := yPixel * MINUTES + minute;
      ghost var gs := g[..];
      CellsAfterStep(gs, cumulative, maxAccessibility, iteration, minute);
      if |cumulative| < UINT16_RANGE {
        NoWrapBelowRange(gs, cumulative, maxAccessibility, iteration, minute);
      }
      g[idx] := (g[idx] + 1) % UINT16_RANGE;
      assert g[..] == gs[idx := (gs[idx] + 1) % UINT16_RANGE];
      MaxAfterStep(gs, g[..], idx, maxPixelValue.n, wk, |cumulative| < UINT16_RANGE);
      if g[idx] > maxPixelValue.n {
        wk := idx;
      }
      maxPixelValue := JsMax(maxPixelValue, g[idx]);
    }
  }

  /** Below 65536 iterations the addressed cell is below 65535 before the
      increment, so the increment does not wrap. */
  lemma NoWrapBelowRange(gs: seq<int>, cumulative: seq<seq<nat>>, maxAccessibility: nat,
                         iteration: nat, minute: nat)
    requires Bounded(cumulative, maxAccessibility) && 0 < maxAccessibility
    requires iteration < |cumulative| < UINT16_RANGE && minute < MINUTES && |gs| == CELLS
    requires forall k :: 0 <= k < CELLS ==>
               gs[k] == Cell(cumulative, if k % MINUTES < minute then iteration + 1 else iteration,
                             maxAccessibility, k)
    ensures var idx := Row(cumulative[iteration][minute], maxAccessibility) * MINUTES + minute;
            0 <= idx < CELLS && (gs[idx] + 1) % UINT16_RANGE == gs[idx] + 1
  {
    var y := Row(cumulative[iteration][minute], maxAccessibility);
    RowInCanvas(cumulative[iteration][minute], maxAccessibility, minute);
    FlatIndex(y, minute);
    var idx := y * MINUTES + minute;
    var h := Hits(cumulative, iteration, maxAccessibility, y, minute);
    assert gs[idx] == h % UINT16_RANGE;
    assert h < UINT16_RANGE - 1;
  }

  /** The running maximum after one cell changes to `v`: it still bounds
      every cell, and without a wrap it is still the value of some cell. */
  lemma MaxAfterStep(gs: seq<int>, gs': seq<int>, idx: nat, mp: int, wk: nat, noWrap: bool)
    requires |gs| == CELLS && |gs'| == CELLS && idx < CELLS && gs' == gs[idx := gs'[idx]]
    requires forall k :: 0 <= k < CELLS ==> gs[k] <= mp
    requires noWrap ==> wk < CELLS && gs[wk] == mp && gs'[idx] == gs[idx] + 1
    ensures var mp' := if gs'[idx] > mp then gs'[idx] else mp;
            forall k :: 0 <= k < CELLS ==> gs'[k] <= mp'
    ensures var mp' := if gs'[idx] > mp then gs'[idx] else mp;
            var wk' := if gs'[idx] > mp then idx else wk;
            noWrap ==> wk' < CELLS && gs'[wk'] == mp'
  {
  }

  /** How one increment changes the grid: the addressed cell goes up by one
      (modulo 2^16), so the invariant moves on by one minute. */
  lemma CellsAfterStep(gs: seq<int>, cumulative: seq<seq<nat>>, maxAccessibility: nat,
                       iteration: nat, minute: nat)
    requires Bounded(cumulative, maxAccessibility) && 0 < maxAccessibility
    requires iteration < |cumulative| && minute < MINUTES && |gs| == CELLS
    requires forall k :: 0 <= k < CELLS ==>
               gs[k] == Cell(cumulative, if k % MINUTES < minute then iteration + 1 else iteration,
                             maxAccessibility, k)
    ensures var idx := Row(cumulative[iteration][minute], maxAccessibility) * MINUTES + minute;
            0 <= idx < CELLS &&
            forall k :: 0 <= k < CELLS ==>
              gs[idx := (gs[idx] + 1) % UINT16_RANGE][k]
              == Cell(cumulative, if k % MINUTES < minute + 1 then iteration + 1 else iteration,
                      maxAccessibility, k)
  {
    var y := Row(cumulative[iteration][minute], maxAccessibility);
    RowInCanvas(cumulative[iteration][minute], maxAccessibility, minute);
    var idx := y * MINUTES + minute;
    FlatIndex(y, minute);
    var gs' := gs[idx := (gs[idx] + 1) % UINT16_RANGE];
    forall k | 0 <= k < CELLS
      ensures gs'[k] == Cell(cumulative, if k % MINUTES < minute + 1 then iteration + 1 else iteration,
                             maxAccessibility, k)
    {
      CellStep(cumulative, maxAccessibility, iteration, minute, k);
    }
  }

  /** Binning the value of (iteration, minute) changes one cell of the
      grid: the one in its row and minute, which goes up by one modulo 2^16. */
  lemma CellStep(cumulative: seq<seq<nat>>, maxAccessibility: nat, iteration: nat, minute: nat, k: nat)
    requires Bounded(cumulative, maxAccessibility) && 0 < maxAccessibility
    requires iteration < |cumulative| && minute < MINUTES && k < CELLS
    ensures var before := Cell(cumulative, if k % MINUTES < minute then iteration + 1 else iteration,
                               maxAccessibility, k);
            var after := Cell(cumulative, if k % MINUTES < minute + 1 then iteration + 1 else iteration,
                              maxAccessibility, k);
            after == if k == Row(cumulative[iteration][minute], maxAccessibility) * MINUTES + minute
                     then (before + 1) % UINT16_RANGE else before
  {
    var y := Row(cumulative[iteration][minute], maxAccessibility);
    RowInCanvas(cumulative[iteration][minute], maxAccessibility, minute);
    FlatIndex(y, minute);
    var row, m := k / MINUTES, k % MINUTES;
    if m == minute {
      var h := Hits(cumulative, iteration, maxAccessibility, row, minute);
      assert Hits(cumulative, iteration + 1, maxAccessibility, row, minute)
             == h + (if y == row then 1 else 0);
      if k == y * MINUTES + minute {
        ModIncrement(h);
      } else {
        assert k == row * MINUTES + m;
      }
    }
  }

  lemma ModIncrement(h: nat)
    ensures (h % UINT16_RANGE + 1) % UINT16_RANGE == (h + 1) % UINT16_RANGE
  {
  }

  /** The binning loops: every (iteration, minute) value increments the
      `Uint16Array` cell of its row and minute, and the running maximum
      reads the cell back. With a zero maximum `c / max` is not a number:
      the typed array ignores the write and the read gives `undefined`. */
  method BinGrid(cumulative: seq<seq<nat>>, maxAccessibility: nat)
    returns (grid: seq<int>, maxPixelValue: PixelMax)
    requires Bounded(cumulative, maxAccessibility)
    ensures grid == BinnedGrid(cumulative, maxAccessibility)
    ensures maxAccessibility == 0 ==> maxPixelValue == if |cumulative| == 0 then Count(0) else NaN
    ensures maxAccessibility > 0 ==>
              maxPixelValue.Count? && forall k :: 0 <= k < |grid| ==> grid[k] <= maxPixelValue.n
    ensures maxAccessibility > 0 && |cumulative| < UINT16_RANGE ==>
              exists k :: 0 <= k < |grid| && grid[k] == maxPixelValue.n
  {
    var g := new int[CELLS](_ => 0);
    maxPixelValue := Count(0);
    ghost var wk := 0;
    for iteration := 0 to |cumulative|
      invariant BinnedSoFar(g[..], cumulative, maxAccessibility, iteration, 0, maxPixelValue, wk)
    {
      maxPixelValue, wk := BinIteration(g, cumulative, maxAccessibility, iteration, maxPixelValue, wk);
    }
    grid := g[..];
  }

  // ---------------------------------------------------------------------
  // Mass conservation

  /** How many of the first `n` iterations land in rows 0 .. rows-1 at `minute`. */
  function HitsInRows(cumulative: seq<seq<nat>>, n: nat, maxAccessibility: nat, rows: nat, minute: nat): nat
    requires Bounded(cumulative, maxAccessibility) && 0 < maxAccessibility
    requires n <= |cumulative| && minute < MINUTES
  {
    if rows == 0 then 0
    else HitsInRows(cumulative, n, maxAccessibility, rows - 1, minute)
         + Hits(cumulative, n, maxAccessibility, rows - 1, minute)
  }

  lemma {:induction false} NoIterationsNoHits(cumulative: seq<seq<nat>>, maxAccessibility: nat, rows: nat, minute: nat)
    requires Bounded(cumulative, maxAccessibility) && 0 < maxAccessibility && minute < MINUTES
    ensures HitsInRows(cumulative, 0, maxAccessibility, rows, minute) == 0
  {
    if rows > 0 {
      NoIterationsNoHits(cumulative, maxAccessibility, rows - 1, minute);
    }
  }

  /** Adding one iteration adds one to the rows below its row's bound. */
  lemma {:induction false} HitsInRowsStep(cumulative: seq<seq<nat>>, n: nat, maxAccessibility: nat,
                                          rows: nat, minute: nat)
    requires Bounded(cumulative, maxAccessibility) && 0 < maxAccessibility
    requires 0 < n <= |cumulative| && minute < MINUTES
    ensures HitsInRows(cumulative, n, maxAccessibility, rows, minute)
            == HitsInRows(cumulative, n - 1, maxAccessibility, rows, minute)
               + (if Row(cumulative[n - 1][minute], maxAccessibility) < rows then 1 else 0)
  {
    RowInCanvas(cumulative[n - 1][minute], maxAccessibility, minute);
    if rows > 0 {
      HitsInRowsStep(cumulative, n, maxAccessibility, rows - 1, minute);
      var r := Row(cumulative[n - 1][minute], maxAccessibility);
      assert Hits(cumulative, n, maxAccessibility, rows - 1, minute)
             == Hits(cumulative, n - 1, maxAccessibility, rows - 1, minute) + (if r == rows - 1 then 1 else 0);
      assert (if r < rows then 1 else 0) == (if r < rows - 1 then 1 else 0) + (if r == rows - 1 then 1 else 0);
    }
  }

  /** Every iteration lands in exactly one row of each minute. */
  lemma {:induction false} ColumnMass(cumulative: seq<seq<nat>>, n: nat, maxAccessibility: nat, minute: nat)
    requires Bounded(cumulative, maxAccessibility) && 0 < maxAccessibility
    requires n <= |cumulative| && minute < MINUTES
    ensures HitsInRows(cumulative, n, maxAccessibility, CANVAS_HEIGHT, minute) == n
  {
    if n == 0 {
      NoIterationsNoHits(cumulative, maxAccessibility, CANVAS_HEIGHT, minute);
    } else {
      ColumnMass(cumulative, n - 1, maxAccessibility, minute);
      HitsInRowsStep(cumulative, n, maxAccessibility, CANVAS_HEIGHT, minute);
      RowInCanvas(cumulative[n - 1][minute], maxAccessibility, minute);
    }
  }

  /** Sum of rows 0 .. rows-1 of one minute's column of a grid. */
  function ColumnSum(grid: seq<int>, minute: nat, rows: nat): int
    requires |grid| == CELLS && minute < MINUTES && rows <= CANVAS_HEIGHT
  {
    if rows == 0 then 0
    else ColumnSum(grid, minute, rows - 1) + grid[(rows - 1) * MINUTES + minute]
  }

  /** Below the `Uint16Array` wrap point, a column of the binned grid holds
      exactly the hit counts. */
  lemma {:induction false} GridColumnIsHits(cumulative: seq<seq<nat>>, maxAccessibility: nat,
                                            minute: nat, rows: nat)
    requires Bounded(cumulative, maxAccessibility) && 0 < maxAccessibility
    requires |cumulative| < UINT16_RANGE && minute < MINUTES && rows <= CANVAS_HEIGHT
    ensures ColumnSum(BinnedGrid(cumulative, maxAccessibility), minute, rows)
            == HitsInRows(cumulative, |cumulative|, maxAccessibility, rows, minute)
  {
    if rows > 0 {
      GridColumnIsHits(cumulative, maxAccessibility, minute, rows - 1);
      GridCellIsHits(cumulative, maxAccessibility, rows - 1, minute);
    }
  }

  /** Below the wrap point a cell of the binned grid is its hit count. */
  lemma GridCellIsHits(cumulative: seq<seq<nat>>, maxAccessibility: nat, y: nat, minute: nat)
    requires Bounded(cumulative, maxAccessibility) && 0 < maxAccessibility
    requires |cumulative| < UINT16_RANGE && y < CANVAS_HEIGHT && minute < MINUTES
    ensures y * MINUTES + minute < CELLS
    ensures BinnedGrid(cumulative, maxAccessibility)[y * MINUTES + minute]
            == Hits(cumulative, |cumulative|, maxAccessibility, y, minute)
  {
    FlatIndex(y, minute);
    var h := Hits(cumulative, |cumulative|, maxAccessibility, y, minute);
    assert h % UINT16_RANGE == h;
  }

  /** Every minute column of the grid sums to the number of iterations. */
  lemma GridColumnMass(cumulative: seq<seq<nat>>, maxAccessibility: nat, minute: nat)
    requires Bounded(cumulative, maxAccessibility) && 0 < maxAccessibility
    requires |cumulative| < UINT16_RANGE && minute < MINUTES
    ensures ColumnSum(BinnedGrid(cumulative, maxAccessibility), minute, CANVAS_HEIGHT) == |cumulative|
  {
    GridColumnIsHits(cumulative, maxAccessibility, minute, CANVAS_HEIGHT);
    ColumnMass(cumulative, |cumulative|, maxAccessibility, minute);
  }

  /** A cell that no iteration's value maps to stays 0. */
  lemma {:induction false} UnhitCellStaysZero(cumulative: seq<seq<nat>>, maxAccessibility: nat, k: nat, n: nat)
    requires Bounded(cumulative, maxAccessibility) && k < CELLS && n <= |cumulative|
    requires 0 < maxAccessibility ==>
               forall i :: 0 <= i < n ==> Row(cumulative[i][k % MINUTES], maxAccessibility) != k / MINUTES
    ensures Cell(cumulative, n, maxAccessibility, k) == 0
  {
    if 0 < maxAccessibility && n > 0 {
      UnhitCellStaysZero(cumulative, maxAccessibility, k, n - 1);
    }
  }

  /** Sum of the first `cols` cells of row `y`. */
  function RowSum(grid: seq<int>, y: nat, cols: nat): int
    requires |grid| == CELLS && cols <= MINUTES && y * MINUTES + cols <= CELLS
  {
    if cols == 0 then 0 else RowSum(grid, y, cols - 1) + grid[y * MINUTES + cols - 1]
  }

  /** Sum of the first `cols` cells of rows 0 .. rows-1. */
  function RowsTotal(grid: seq<int>, rows: nat, cols: nat): int
    requires |grid| == CELLS && rows <= CANVAS_HEIGHT && cols <= MINUTES
  {
    if rows == 0 then 0 else RowsTotal(grid, rows - 1, cols) + RowSum(grid, rows - 1, cols)
  }

  /** Sum of rows 0 .. rows-1 of columns 0 .. cols-1, column by column. */
  function ColumnsTotal(grid: seq<int>, rows: nat, cols: nat): int
    requires |grid| == CELLS && rows <= CANVAS_HEIGHT && cols <= MINUTES
  {
    if cols == 0 then 0 else ColumnsTotal(grid, rows, cols - 1) + ColumnSum(grid, cols - 1, rows)
  }

  /** The flat prefix of a row-major grid sums row by row. */
  lemma {:induction false} TotalByRows(grid: seq<int>, rows: nat, cols: nat)
    requires |grid| == CELLS && rows <= CANVAS_HEIGHT && cols <= MINUTES
    requires rows * MINUTES + cols <= CELLS
    ensures Sum(grid[..rows * MINUTES + cols]) == RowsTotal(grid, rows, MINUTES) + RowSum(grid, rows, cols)
    decreases rows, cols
  {
    var p := rows * MINUTES + cols;
    if cols > 0 {
      TotalByRows(grid, rows, cols - 1);
      assert grid[..p][..p - 1] == grid[..p - 1];
    } else if rows > 0 {
      TotalByRows(grid, rows - 1, MINUTES);
    }
  }

  /** Adding a row adds that row's sum to the column-by-column total. */
  lemma {:induction false} ColumnsTotalStep(grid: seq<int>, rows: nat, cols: nat)
    requires |grid| == CELLS && 0 < rows <= CANVAS_HEIGHT && cols <= MINUTES
    ensures ColumnsTotal(grid, rows, cols) == ColumnsTotal(grid, rows - 1, cols) + RowSum(grid, rows - 1, cols)
  {
    if cols > 0 {
      ColumnsTotalStep(grid, rows, cols - 1);
    }
  }

  /** Summing a grid by rows or by columns gives the same total. */
  lemma {:induction false} RowsEqualColumns(grid: seq<int>, rows: nat, cols: nat)
    requires |grid| == CELLS && rows <= CANVAS_HEIGHT && cols <= MINUTES
    ensures RowsTotal(grid, rows, cols) == ColumnsTotal(grid, rows, cols)
  {
    if rows == 0 {
      ColumnsOfNoRows(grid, cols);
    } else {
      RowsEqualColumns(grid, rows - 1, cols);
      ColumnsTotalStep(grid, rows, cols);
    }
  }

  lemma {:induction false} ColumnsOfNoRows(grid: seq<int>, cols: nat)
    requires |grid| == CELLS && cols <= MINUTES
    ensures ColumnsTotal(grid, 0, cols) == 0
  {
    if cols > 0 {
      ColumnsOfNoRows(grid, cols - 1);
    }
  }

  /** The whole binned grid sums to iterations * 120. */
  lemma GridTotalMass(cumulative: seq<seq<nat>>, maxAccessibility: nat)
    requires Bounded(cumulative, maxAccessibility) && 0 < maxAccessibility
    requires |cumulative| < UINT16_RANGE
    ensures Sum(BinnedGrid(cumulative, maxAccessibility)) == |cumulative| * MINUTES
  {
    var grid := BinnedGrid(cumulative, maxAccessibility);
    TotalByRows(grid, CANVAS_HEIGHT, 0);
    assert grid[..CANVAS_HEIGHT * MINUTES + 0] == grid;
    RowsEqualColumns(grid, CANVAS_HEIGHT, MINUTES);
    ColumnsTotalOfMass(cumulative, maxAccessibility, MINUTES);
  }

  lemma {:induction false} ColumnsTotalOfMass(cumulative: seq<seq<nat>>, maxAccessibility: nat, cols: nat)
    requires Bounded(cumulative, maxAccessibility) && 0 < maxAccessibility
    requires |cumulative| < UINT16_RANGE && cols <= MINUTES
    ensures ColumnsTotal(BinnedGrid(cumulative, maxAccessibility), CANVAS_HEIGHT, cols) == |cumulative| * cols
  {
    if cols > 0 {
      var grid := BinnedGrid(cumulative, maxAccessibility);
      ColumnsTotalOfMass(cumulative, maxAccessibility, cols - 1);
      GridColumnMass(cumulative, maxAccessibility, cols - 1);
      assert ColumnsTotal(grid, CANVAS_HEIGHT, cols)
             == ColumnsTotal(grid, CANVAS_HEIGHT, cols - 1) + ColumnSum(grid, cols - 1, CANVAS_HEIGHT);
      assert |cumulative| * cols == |cumulative| * (cols - 1) + |cumulative|;
    }
  }

  /** The data part of `drawCanvas`: slice, running sums with their maximum,
      then the grid and its largest cell. */
  method DrawCanvasData(data: seq<seq<nat>>, count: nat)
    returns (iterations: nat, maxAccessibility: nat, grid: seq<int>, maxPixelValue: PixelMax)
    requires forall i :: 0 <= i < |data| && i < count ==> MINUTES <= |data[i]|
    ensures iterations == SliceLength(data, count)
    ensures iterations == 0 ==> maxAccessibility == 0
    ensures forall i, m :: 0 <= i < iterations && 0 <= m < MINUTES ==> Cum(data[i], m) <= maxAccessibility
    ensures iterations > 0 ==>
              exists i, m :: 0 <= i < iterations && 1 <= m < MINUTES && Cum(data[i], m) == maxAccessibility
    ensures grid == BinnedGrid(CumulativeRows(data[..iterations], MINUTES), maxAccessibility)
    ensures maxAccessibility == 0 ==> maxPixelValue == if iterations == 0 then Count(0) else NaN
    ensures maxAccessibility > 0 ==>
              maxPixelValue.Count? && forall k :: 0 <= k < |grid| ==> grid[k] <= maxPixelValue.n
    ensures maxAccessibility > 0 && iterations < UINT16_RANGE ==>
              exists k :: 0 <= k < |grid| && grid[k] == maxPixelValue.n
    ensures maxAccessibility == 0 ==> forall k :: 0 <= k < |grid| ==> grid[k] == 0
    ensures maxAccessibility > 0 && iterations < UINT16_RANGE ==>
              (forall m :: 0 <= m < MINUTES ==> ColumnSum(grid, m, CANVAS_HEIGHT) == iterations) &&
              Sum(grid) == iterations * MINUTES
  {
    var sliced := data[..SliceLength(data, count)];
    iterations := |sliced|;
    var cumulative;
    cumulative, maxAccessibility := CumulativeWithMax(sliced);
    forall i, m | 0 <= i < iterations && 0 <= m < MINUTES
      ensures cumulative[i][m] <= maxAccessibility
    {
      CumMonotone(sliced[i], m, if m == 0 then 1 else m);
    }
    grid, maxPixelValue := BinGrid(cumulative, maxAccessibility);
    if maxAccessibility > 0 && iterations < UINT16_RANGE {
      forall m | 0 <= m < MINUTES
        ensures ColumnSum(grid, m, CANVAS_HEIGHT) == iterations
      {
        GridColumnMass(cumulative, maxAccessibility, m);
      }
      GridTotalMass(cumulative, maxAccessibility);
    }
  }
}
