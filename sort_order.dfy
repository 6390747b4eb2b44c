/** Orders on naturals, sortedness by such an order, and sorting.
    The confidence plot sorts each minute's values with an order given
    as a parameter: JavaScript's default order (module DefaultSort) or
    numeric order. */
module SortOrder {

  /** `le` is the "comes no later than" test of a total order. */
  ghost predicate TotalOrder(le: (nat, nat) -> bool)
  {
    (forall a: nat, b: nat :: le(a, b) || le(b, a)) &&
    (forall a: nat, b: nat :: le(a, b) && le(b, a) ==> a == b) &&
    (forall a: nat, b: nat, c: nat :: le(a, b) && le(b, c) ==> le(a, c))
  }

  /** Every element comes no later than every element after it. */
  predicate SortedBy(s: seq<nat>, le: (nat, nat) -> bool)
  {
    forall p, q :: 0 <= p < q < |s| ==> le(s[p], s[q])
  }

  /** Numeric order, what a sort with comparator `(a, b) => a - b` uses. */
  function NumericLe(a: nat, b: nat): bool
  {
    a <= b
  }

  lemma NumericIsTotalOrder()
    ensures TotalOrder(NumericLe)
  {
  }

  /** Inserts `x` into `s` before the first element it comes no later than. */
  function Insert(x: nat, s: seq<nat>, le: (nat, nat) -> bool): (r: seq<nat>)
    ensures multiset(r) == multiset(s) + multiset{x}
    ensures TotalOrder(le) && SortedBy(s, le) ==> SortedBy(r, le)
  {
    if s == [] then [x]
    else if le(x, s[0]) then
      InsertFront(x, s, le);
      [x] + s
    else
      var rest := Insert(x, s[1..], le);
      InsertAfterHead(x, s, rest, le);
      [s[0]] + rest
  }

  /** Splitting off the head of a sequence. */
  lemma HeadTail(s: seq<nat>, le: (nat, nat) -> bool)
    requires s != []
    ensures s == [s[0]] + s[1..]
    ensures multiset(s) == multiset{s[0]} + multiset(s[1..])
    ensures SortedBy(s, le) ==> SortedBy(s[1..], le)
  {
    assert s == [s[0]] + s[1..];
  }

  /** `x` placed in front of a sorted `s` whose head it precedes. */
  lemma InsertFront(x: nat, s: seq<nat>, le: (nat, nat) -> bool)
    requires s != [] && le(x, s[0])
    ensures TotalOrder(le) && SortedBy(s, le) ==> SortedBy([x] + s, le)
  {
    if TotalOrder(le) && SortedBy(s, le) {
      var r := [x] + s;
      forall p, q | 0 <= p < q < |r| ensures le(r[p], r[q]) {
        if p == 0 && q > 1 {
          assert le(s[0], s[q - 1]);
        }
      }
    }
  }

  /** The head of `s` kept in front of `rest`, the insertion of `x` into
      the tail, when `x` does not precede the head. */
  lemma InsertAfterHead(x: nat, s: seq<nat>, rest: seq<nat>, le: (nat, nat) -> bool)
    requires s != [] && !le(x, s[0])
    requires multiset(rest) == multiset(s[1..]) + multiset{x}
    requires TotalOrder(le) && SortedBy(s[1..], le) ==> SortedBy(rest, le)
    ensures multiset([s[0]] + rest) == multiset(s) + multiset{x}
    ensures TotalOrder(le) && SortedBy(s, le) ==> SortedBy([s[0]] + rest, le)
  {
    HeadTail(s, le);
    if TotalOrder(le) && SortedBy(s, le) {
      HeadPrecedesRest(x, s, rest, le);
      ConsSorted(s[0], rest, le);
    }
  }

  /** Every element of the insertion into the tail comes no earlier than
      the head. */
  lemma HeadPrecedesRest(x: nat, s: seq<nat>, rest: seq<nat>, le: (nat, nat) -> bool)
    requires TotalOrder(le) && SortedBy(s, le)
    requires s != [] && !le(x, s[0])
    requires multiset(rest) == multiset(s[1..]) + multiset{x}
    ensures forall q :: 0 <= q < |rest| ==> le(s[0], rest[q])
  {
    forall q | 0 <= q < |rest| ensures le(s[0], rest[q]) {
      assert rest[q] in multiset(rest);
      if rest[q] == x {
        assert le(x, s[0]) || le(s[0], x);
      } else {
        assert rest[q] in multiset(s[1..]);
        var j :| 0 <= j < |s[1..]| && s[1..][j] == rest[q];
        assert s[j + 1] == rest[q];
      }
    }
  }

  /** A head that precedes every element of a sorted sequence keeps it
      sorted. */
  lemma ConsSorted(h: nat, rest: seq<nat>, le: (nat, nat) -> bool)
    requires SortedBy(rest, le)
    requires forall q :: 0 <= q < |rest| ==> le(h, rest[q])
    ensures SortedBy([h] + rest, le)
  {
    var r := [h] + rest;
    forall p, q | 0 <= p < q < |r| ensures le(r[p], r[q]) {
      assert r[q] == rest[q - 1];
      if p > 0 {
        assert r[p] == rest[p - 1];
      }
    }
  }

  /** Reference sort: the sorted permutation of `s` (insertion sort). */
  function SortBy(s: seq<nat>, le: (nat, nat) -> bool): (r: seq<nat>)
    ensures multiset(r) == multiset(s)
    ensures TotalOrder(le) ==> SortedBy(r, le)
  {
    if s == [] then []
    else
      HeadTail(s, le);
      Insert(s[0], SortBy(s[1..], le), le)
  }

  /** In a sorted permutation of `x`, the head comes no later than the head
      of `x`. */
  lemma HeadIsLeast(x: seq<nat>, y: seq<nat>, le: (nat, nat) -> bool)
    requires TotalOrder(le) && SortedBy(y, le)
    requires x != [] && multiset(x) == multiset(y)
    ensures y != [] && le(y[0], x[0])
  {
    assert x[0] in multiset(y);
    var k :| 0 <= k < |y| && y[k] == x[0];
    if k == 0 {
      var h := y[0];
      assert le(h, h) || le(h, h);
    }
  }

  /** Under a total order there is exactly one sorted arrangement of a
      multiset, so any sorting algorithm gives the same sequence. */
  lemma {:induction false} SortedPermutationUnique(x: seq<nat>, y: seq<nat>, le: (nat, nat) -> bool)
    requires TotalOrder(le)
    requires SortedBy(x, le) && SortedBy(y, le)
    requires multiset(x) == multiset(y)
    ensures x == y
  {
    if x == [] {
      assert |y| == |multiset(y)| == 0;
    } else {
      HeadIsLeast(x, y, le);
      HeadIsLeast(y, x, le);
      assert x[0] == y[0];
      HeadTail(x, le);
      HeadTail(y, le);
      assert multiset(x[1..]) == multiset(x) - multiset{x[0]};
      assert multiset(y[1..]) == multiset(y) - multiset{y[0]};
      SortedPermutationUnique(x[1..], y[1..], le);
    }
  }

  /** State of the insertion of element `i`, now at position `j`: the
      elements before `j` are sorted, those from `j` to `i` are sorted, and
      every element before `j` precedes every element after it. */
  ghost predicate Inserting(s: seq<nat>, i: nat, j: nat, le: (nat, nat) -> bool)
  {
    j <= i < |s| &&
    (forall p, q :: 0 <= p < q < j ==> le(s[p], s[q])) &&
    (forall p, q :: j <= p < q <= i ==> le(s[p], s[q])) &&
    (forall p, q :: 0 <= p < j < q <= i ==> le(s[p], s[q]))
  }

  /** Swapping element `j` with the one before it, which it must precede,
      moves the insertion one place left. */
  lemma SwapStep(s: seq<nat>, i: nat, j: nat, le: (nat, nat) -> bool)
    requires TotalOrder(le) && Inserting(s, i, j, le)
    requires 0 < j && !le(s[j - 1], s[j])
    ensures Inserting(s[j - 1 := s[j]][j := s[j - 1]], i, j - 1, le)
  {
    var t := s[j - 1 := s[j]][j := s[j - 1]];
    assert le(s[j], s[j - 1]);
    forall p, q | j - 1 <= p < q <= i ensures le(t[p], t[q]) {
      if p == j - 1 && q > j {
        assert le(s[j - 1], s[q]);
      }
    }
    forall p, q | 0 <= p < j - 1 < q <= i ensures le(t[p], t[q]) {
      if q == j - 1 + 1 {
        assert le(s[p], s[j - 1]);
      } else {
        assert le(s[p], s[j - 1]) && le(s[j - 1], s[q]);
      }
    }
  }

  /** Once element `j` does not have to pass the one before it, the whole
      prefix up to `i` is sorted. */
  lemma InsertionDone(s: seq<nat>, i: nat, j: nat, le: (nat, nat) -> bool)
    requires TotalOrder(le) && Inserting(s, i, j, le)
    requires j == 0 || le(s[j - 1], s[j])
    ensures forall p, q :: 0 <= p < q <= i ==> le(s[p], s[q])
  {
    forall p, q | 0 <= p < q <= i ensures le(s[p], s[q]) {
      if p < j - 1 && q == j {
        assert le(s[p], s[j - 1]);
      }
    }
  }

  /** Moves `a[i]` left past the elements it must come before, so that
      `a[..i+1]` ends sorted when `a[..i]` was. */
  method InsertLast(a: array<nat>, i: nat, le: (nat, nat) -> bool)
    requires TotalOrder(le)
    requires i < a.Length
    requires forall p, q :: 0 <= p < q < i ==> le(a[p], a[q])
    modifies a
    ensures forall p, q :: 0 <= p < q <= i ==> le(a[p], a[q])
    ensures multiset(a[..]) == multiset(old(a[..]))
    ensures a[i + 1..] == old(a[i + 1..])
  {
    var j: nat := i;
    while j > 0 && !le(a[j - 1], a[j])
      invariant Inserting(a[..], i, j, le)
      invariant multiset(a[..]) == multiset(old(a[..]))
      invariant a[i + 1..] == old(a[i + 1..])
    {
      SwapBack(a, i, j, le);
      j := j - 1;
    }
    InsertionDone(a[..], i, j, le);
  }

  /** One step of `InsertLast`: swap `a[j]` with the element before it. */
  method SwapBack(a: array<nat>, i: nat, j: nat, le: (nat, nat) -> bool)
    requires TotalOrder(le) && Inserting(a[..], i, j, le)
    requires 0 < j && !le(a[j - 1], a[j])
    modifies a
    ensures Inserting(a[..], i, j - 1, le)
    ensures a[..] == old(a[..][j - 1 := a[j]][j := a[j - 1]])
    ensures multiset(a[..]) == multiset(old(a[..]))
  {
    ghost var s := a[..];
    SwapStep(s, i, j, le);
    a[j - 1], a[j] := a[j], a[j - 1];
    assert a[..] == s[j - 1 := s[j]][j := s[j - 1]];
  }

  /** Sorts `a` in place (insertion sort); under a total order the result
      is the reference sort of the original contents. */
  method SortInPlace(a: array<nat>, le: (nat, nat) -> bool)
    requires TotalOrder(le)
    modifies a
    ensures SortedBy(a[..], le)
    ensures multiset(a[..]) == multiset(old(a[..]))
    ensures a[..] == SortBy(old(a[..]), le)
  {
    var i := 0;
    while i < a.Length
      invariant 0 <= i <= a.Length
      invariant forall p, q :: 0 <= p < q < i ==> le(a[p], a[q])
      invariant multiset(a[..]) == multiset(old(a[..]))
    {
      InsertLast(a, i, le);
      i := i + 1;
    }
    SortedPermutationUnique(a[..], SortBy(old(a[..]), le), le);
  }
}
