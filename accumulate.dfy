/** Running sums of per-minute increments: the cumulative accessibility
    both components build before anything else. An iteration is one
    simulated run, a row of non-negative opportunity counts per minute. */
module Accumulate {

  /** Cumulative value of `row` at minute `m`, by the recurrence both
      components use: the first minute as is, then previous plus increment. */
  function Cum(row: seq<nat>, m: nat): (c: nat)
    requires m < |row|
    ensures row[m] <= c
  {
    if m == 0 then row[0] else Cum(row, m - 1) + row[m]
  }

  /** Independent reference: the plain sum of a sequence. It is stated
      over `int` so that the spectrograph's grid cells, which are `int`,
      use the same definition. */
  function Sum(s: seq<int>): int
  {
    if s == [] then 0 else Sum(s[..|s| - 1]) + s[|s| - 1]
  }

  /** The running sum at minute `m` is the total of minutes 0 through `m`. */
  lemma {:induction false} CumIsPrefixSum(row: seq<nat>, m: nat)
    requires m < |row|
    ensures Cum(row, m) == Sum(row[..m + 1])
  {
    if m == 0 {
      assert row[..1][..0] == [];
    } else {
      CumIsPrefixSum(row, m - 1);
      assert row[..m + 1][..m] == row[..m];
    }
  }

  /** With non-negative increments the running sum never decreases. */
  lemma {:induction false} CumMonotone(row: seq<nat>, m1: nat, m2: nat)
    requires m1 <= m2 < |row|
    ensures Cum(row, m1) <= Cum(row, m2)
  {
    if m1 < m2 {
      CumMonotone(row, m1, m2 - 1);
    }
  }

  /** The first `len` running sums of `row`, in minute order. */
  function CumRow(row: seq<nat>, len: nat): (r: seq<nat>)
    requires len <= |row|
    ensures |r| == len
    ensures forall m :: 0 <= m < len ==> r[m] == Cum(row, m)
  {
    if len == 0 then [] else CumRow(row, len - 1) + [Cum(row, len - 1)]
  }

  /** Every row has at least `minutes` increments. */
  predicate RowsCover(data: seq<seq<nat>>, minutes: nat)
  {
    forall i :: 0 <= i < |data| ==> minutes <= |data[i]|
  }

  /** The cumulative matrix: every iteration's first `minutes` running sums. */
  function CumulativeRows(data: seq<seq<nat>>, minutes: nat): (cum: seq<seq<nat>>)
    requires RowsCover(data, minutes)
  {
    seq(|data|, i requires 0 <= i < |data| => CumRow(data[i], minutes))
  }

  /** Shape and recurrence of the cumulative matrix, and its rows never
      decrease. */
  lemma CumulativeRowsShape(data: seq<seq<nat>>, minutes: nat, i: nat, m: nat)
    requires RowsCover(data, minutes)
    requires i < |data| && m < minutes
    ensures |CumulativeRows(data, minutes)| == |data|
    ensures |CumulativeRows(data, minutes)[i]| == minutes
    ensures m == 0 ==> CumulativeRows(data, minutes)[i][m] == data[i][0]
    ensures m > 0 ==> CumulativeRows(data, minutes)[i][m] == CumulativeRows(data, minutes)[i][m - 1] + data[i][m]
    ensures forall m' :: m <= m' < minutes ==> CumulativeRows(data, minutes)[i][m] <= CumulativeRows(data, minutes)[i][m']
  {
    forall m' | m <= m' < minutes
      ensures CumulativeRows(data, minutes)[i][m] <= CumulativeRows(data, minutes)[i][m']
    {
      CumMonotone(data[i], m, m');
    }
  }

  /** Rows that are each iteration's first `minutes` running sums form the
      cumulative matrix. */
  lemma RowsAreCumulative(cumulative: seq<seq<nat>>, data: seq<seq<nat>>, minutes: nat)
    requires RowsCover(data, minutes) && |cumulative| == |data|
    requires forall j :: 0 <= j < |data| ==> cumulative[j] == CumRow(data[j], minutes)
    ensures cumulative == CumulativeRows(data, minutes)
  {
    assert forall j :: 0 <= j < |data| ==> cumulative[j] == CumulativeRows(data, minutes)[j];
  }

  /** The first loop of both components: every iteration's row starts as
      its first increment. */
  method FirstMinuteRows(data: seq<seq<nat>>) returns (cumulative: seq<seq<nat>>)
    requires RowsCover(data, 1)
    ensures |cumulative| == |data|
    ensures forall j :: 0 <= j < |data| ==> cumulative[j] == [data[j][0]] == CumRow(data[j], 1)
  {
    cumulative := [];
    for i := 0 to |data|
      invariant |cumulative| == i
      invariant forall j :: 0 <= j < i ==> cumulative[j] == [data[j][0]] == CumRow(data[j], 1)
    {
      cumulative := cumulative + [[data[i][0]]];
    }
  }
}
