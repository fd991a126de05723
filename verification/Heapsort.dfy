/**
  In-place heapsort with a hole (bench/shootout-src/heapsort.c), on indices 1 to n.
  Elements are reals: the program's doubles without NaN, where `<` is a total order.
 */
module Heapsort {

  // ----- heaps on values -----

  /** Node p is at least as large as its children up to ir. */
  predicate Dominates(a: seq<real>, p: nat, ir: nat)
    requires ir < |a| && 1 <= p <= ir
  {
    (2 * p <= ir ==> a[p] >= a[2 * p]) && (2 * p + 1 <= ir ==> a[p] >= a[2 * p + 1])
  }

  ghost predicate Heap(a: seq<real>, l: nat, ir: nat)
    requires ir < |a| && 1 <= l
  {
    forall p :: l <= p <= ir ==> Dominates(a, p, ir)
  }

  /** The root of a heap is its maximum. */
  lemma {:induction false} RootIsMaximum(a: seq<real>, ir: nat, k: nat)
    requires ir < |a| && Heap(a, 1, ir) && 1 <= k <= ir
    ensures a[k] <= a[1]
    decreases k
  {
    if k > 1 {
      RootIsMaximum(a, ir, k / 2);
      assert Dominates(a, k / 2, ir);
    }
  }

  // ----- sifting -----

  /** A heap on l..ir except that, while the hole is still at l, l itself is not yet placed. */
  ghost predicate Sifting(a: seq<real>, l: nat, ir: nat, i: nat, rra: real)
    requires ir < |a|
  {
    && 1 <= l <= i <= ir
    && (forall p :: l < p <= ir ==> Dominates(a, p, ir))
    && (i != l ==> Dominates(a, l, ir) && rra < a[i])
  }

  /** Moving the larger child into the hole. */
  lemma SiftStep(a: seq<real>, l: nat, ir: nat, i: nat, rra: real, j: nat)
    requires ir < |a| && Sifting(a, l, ir, i, rra)
    requires (j == 2 * i || j == 2 * i + 1) && j <= ir && rra < a[j]
    requires a[2 * i] <= a[j] && (2 * i + 1 <= ir ==> a[2 * i + 1] <= a[j])
    ensures Sifting(a[i := a[j]], l, ir, j, rra)
  {
    var b := a[i := a[j]];
    forall p | l <= p <= ir ensures Dominates(b, p, ir) {
      if p != i {
        assert p != l || i != l;
        assert Dominates(a, p, ir);
        if 2 * p == i || 2 * p + 1 == i {
          assert Dominates(a, i, ir);
        }
      }
    }
  }

  /** Placing the element where it dominates its children. */
  lemma SiftEnd(a: seq<real>, l: nat, ir: nat, i: nat, rra: real)
    requires ir < |a| && Sifting(a, l, ir, i, rra)
    requires (2 * i <= ir ==> a[2 * i] <= rra) && (2 * i + 1 <= ir ==> a[2 * i + 1] <= rra)
    ensures Heap(a[i := rra], l, ir)
  {
    var b := a[i := rra];
    forall p | l <= p <= ir ensures Dominates(b, p, ir) {
      if p != i {
        assert p != l || i != l;
        assert Dominates(a, p, ir);
      }
    }
  }

  // ----- the same elements -----

  /** Moving a child into the hole and the hole to the child swaps two elements of the filled sequence. */
  lemma HoleMoves(a: seq<real>, i: nat, j: nat, x: real)
    requires i < |a| && j < |a| && i != j
    ensures multiset(a[i := a[j]][j := x]) == multiset(a[i := x])
  {
    Swap(a[i := x], i, j);
    assert a[i := x][i := a[j]][j := x] == a[i := a[j]][j := x];
  }

  lemma Swap(s: seq<real>, i: nat, j: nat)
    requires i < |s| && j < |s|
    ensures multiset(s[i := s[j]][j := s[i]]) == multiset(s)
  {
  }

  // ----- bounds from above -----

  predicate AtMost(x: real, tops: seq<real>) {
    forall t :: 0 <= t < |tops| ==> x <= tops[t]
  }

  /** Every element of l..ir is at most every element of `tops`. */
  ghost predicate Under(a: seq<real>, l: nat, ir: nat, tops: seq<real>)
    requires ir < |a|
  {
    forall k :: l <= k <= ir ==> AtMost(a[k], tops)
  }

  lemma UnderUpdate(a: seq<real>, l: nat, ir: nat, tops: seq<real>, i: nat, x: real)
    requires ir < |a| && l <= i <= ir && Under(a, l, ir, tops) && AtMost(x, tops)
    ensures Under(a[i := x], l, ir, tops)
  {
  }

  // ----- the program -----

  /** Outside l..ir the sequences agree. */
  predicate Outside(a: seq<real>, b: seq<real>, l: nat, ir: nat) {
    |a| == |b| && forall k :: 0 <= k < |a| && !(l <= k <= ir) ==> a[k] == b[k]
  }

  /** One turn of the inner loop, on values: where the hole goes, or that it stays. */
  ghost predicate Placed(a: seq<real>, ir: nat, i: nat, rra: real)
    requires ir < |a| && 1 <= i
  {
    (2 * i <= ir ==> a[2 * i] <= rra) && (2 * i + 1 <= ir ==> a[2 * i + 1] <= rra)
  }

  /** The state of the sift: a heap with a hole, the same elements, bounds kept. */
  ghost predicate Sift(a: seq<real>, a0: seq<real>, l: nat, ir: nat, i: nat, rra: real, tops: seq<real>) {
    && ir < |a| && 1 <= l && l < |a0| && |a| == |a0|
    && Sifting(a, l, ir, i, rra) && Outside(a, a0, l, ir) && Under(a, l, ir, tops)
    && multiset(a[i := rra]) == multiset(a0[l := rra])
  }

  lemma SiftMoves(a: seq<real>, a0: seq<real>, l: nat, ir: nat, i: nat, rra: real, tops: seq<real>, j: nat)
    requires Sift(a, a0, l, ir, i, rra, tops)
    requires (j == 2 * i || j == 2 * i + 1) && j <= ir && rra < a[j]
    requires a[2 * i] <= a[j] && (2 * i + 1 <= ir ==> a[2 * i + 1] <= a[j])
    ensures Sift(a[i := a[j]], a0, l, ir, j, rra, tops)
  {
    SiftStep(a, l, ir, i, rra, j);
    HoleMoves(a, i, j, rra);
    UnderUpdate(a, l, ir, tops, i, a[j]);
  }

  /** The inner loop: sinks rra from the hole at l. */
  method SiftDown(ra: array<real>, l: nat, ir: nat, rra: real, ghost tops: seq<real>)
    requires ir < ra.Length && Sifting(ra[..], l, ir, l, rra) && Under(ra[..], l, ir, tops)
    requires AtMost(rra, tops)
    modifies ra
    ensures Heap(ra[..], l, ir) && Outside(ra[..], old(ra[..]), l, ir) && Under(ra[..], l, ir, tops)
    ensures multiset(ra[..]) == multiset(old(ra[..])[l := rra])
  {
    ghost var a0 := ra[..];
    var i: nat := l;
    var j: nat := 2 * l;
    while j <= ir
      invariant Sift(ra[..], a0, l, ir, i, rra, tops)
      invariant j == 2 * i || (j == ir + 1 && Placed(ra[..], ir, i, rra))
      decreases ir + 1 - j
    {
      i, j := SiftTurn(ra, l, ir, i, rra, tops, a0);
    }
    SiftEnd(ra[..], l, ir, i, rra);
    UnderUpdate(ra[..], l, ir, tops, i, rra);
    ghost var b := ra[..][i := rra];
    ra[i] := rra;
    assert ra[..] == b;
  }

  /** The loop body: the hole moves to the larger child, or the search ends. */
  method SiftTurn(ra: array<real>, l: nat, ir: nat, at: nat, rra: real, ghost tops: seq<real>, ghost a0: seq<real>)
    returns (i: nat, j: nat)
    requires ir < ra.Length && Sift(ra[..], a0, l, ir, at, rra, tops) && 2 * at <= ir
    modifies ra
    ensures Sift(ra[..], a0, l, ir, i, rra, tops) && at <= i
    ensures (j == 2 * i && i > at) || (j == ir + 1 && i == at && Placed(ra[..], ir, i, rra))
  {
    ghost var a := ra[..];
    i, j := at, 2 * at;
    if j < ir && ra[j] < ra[j + 1] {
      j := j + 1;
    }
    if rra < ra[j] {
      SiftMoves(a, a0, l, ir, i, rra, tops, j);
      ra[i] := ra[j];
      assert ra[..] == a[i := a[j]];
      i := j;
      j := j + i;
    } else {
      j := ir + 1;
    }
  }

  /** 1..n is a heap from l up to ir, and sorted above ir with nothing larger below. */
  ghost predicate Progress(a: seq<real>, n: nat, l: nat, ir: nat) {
    && n < |a| && 1 <= l && 1 <= ir <= n
    && Heap(a, l, ir)
    && (forall i, j :: ir < i < j <= n ==> a[i] <= a[j])
    && Under(a, 1, ir, a[ir + 1..n + 1])
  }

  ghost predicate SortedTo(a: seq<real>, n: nat)
    requires n < |a|
  {
    forall i, j :: 1 <= i < j <= n ==> a[i] <= a[j]
  }

  /** Taking the next unplaced node as the hole. */
  lemma NextNode(a: seq<real>, n: nat, l: nat, ir: nat)
    requires Progress(a, n, l + 1, ir) && 1 <= l <= ir
    ensures Sifting(a, l, ir, l, a[l]) && Under(a, l, ir, a[ir + 1..n + 1])
    ensures AtMost(a[l], a[ir + 1..n + 1])
  {
  }

  /** A sift inside 1..ir keeps the sorted tail. */
  lemma TailKept(a: seq<real>, b: seq<real>, n: nat, l: nat, ir: nat)
    requires n < |a| && 1 <= l <= ir <= n && Outside(b, a, l, ir) && Heap(b, l, ir)
    requires forall i, j :: ir < i < j <= n ==> a[i] <= a[j]
    requires Under(a, 1, ir, a[ir + 1..n + 1]) && Under(b, l, ir, a[ir + 1..n + 1])
    ensures Progress(b, n, l, ir)
  {
    assert b[ir + 1..n + 1] == a[ir + 1..n + 1];
    forall k | 1 <= k <= ir ensures AtMost(b[k], b[ir + 1..n + 1]) {
      if k < l {
        assert b[k] == a[k];
      }
    }
  }

  /** Moving the root behind the heap extends the tail by the maximum. */
  lemma TakeRoot(a: seq<real>, n: nat, ir: nat)
    requires Progress(a, n, 1, ir) && ir > 1
    ensures var b := a[ir := a[1]];
      && Sifting(b, 1, ir - 1, 1, a[ir])
      && (forall i, j :: ir - 1 < i < j <= n ==> b[i] <= b[j])
      && Under(b, 1, ir - 1, b[ir..n + 1])
      && AtMost(a[ir], b[ir..n + 1])
      && multiset(b[1 := a[ir]]) == multiset(a)
  {
    var b := a[ir := a[1]];
    var tops := a[ir + 1..n + 1];
    assert b[ir..n + 1] == [a[1]] + tops;
    var top := ir - 1;
    forall p | 1 < p <= top ensures Dominates(b, p, top) {
      assert Dominates(a, p, ir);
    }
    forall k | 1 <= k <= ir ensures a[k] <= a[1] {
      RootIsMaximum(a, ir, k);
    }
    forall i, j | ir - 1 < i < j <= n ensures b[i] <= b[j] {
      if i == ir {
        assert a[j] == tops[j - ir - 1];
      }
    }
    Swap(a, 1, ir);
    assert a[1 := a[ir]][ir := a[1]] == b[1 := a[ir]];
  }

  /** Two elements left: putting the smaller first finishes the sort. */
  lemma LastTwo(b: seq<real>, n: nat, x: real)
    requires 2 <= n < |b| && (forall i, j :: 1 < i < j <= n ==> b[i] <= b[j])
    requires AtMost(x, b[2..n + 1])
    ensures SortedTo(b[1 := x], n)
  {
    forall j | 1 < j <= n ensures x <= b[j] {
      assert b[j] == b[2..n + 1][j - 2];
    }
  }

  /** One turn of the outer loop while the heap is being built. */
  method BuildTurn(ra: array<real>, n: nat, l: nat, ir: nat)
    requires n < ra.Length && 1 <= l <= ir && Progress(ra[..], n, l + 1, ir)
    modifies ra
    ensures Progress(ra[..], n, l, ir) && Outside(ra[..], old(ra[..]), 1, n) && multiset(ra[..]) == old(multiset(ra[..]))
  {
    ghost var a := ra[..];
    var rra := ra[l];
    NextNode(a, n, l, ir);
    SiftDown(ra, l, ir, rra, a[ir + 1..n + 1]);
    TailKept(a, ra[..], n, l, ir);
    assert a[l := rra] == a;
  }

  /** One turn once the heap stands: the maximum goes behind it, the last leaf sinks from the root. */
  method SortTurn(ra: array<real>, n: nat, ir: nat) returns (done: bool)
    requires n < ra.Length && ir > 1 && Progress(ra[..], n, 1, ir)
    modifies ra
    ensures done <==> ir == 2
    ensures if done then SortedTo(ra[..], n) else Progress(ra[..], n, 1, ir - 1)
    ensures Outside(ra[..], old(ra[..]), 1, n) && multiset(ra[..]) == old(multiset(ra[..]))
  {
    ghost var a := ra[..];
    var rra := TakeTop(ra, n, ir);
    ghost var b := ra[..];
    if ir - 1 == 1 {
      LastTwo(b, n, rra);
      ra[1] := rra;
      assert ra[..] == b[1 := rra];
      return true;
    }
    SinkLast(ra, n, ir - 1, rra, b);
    done := false;
  }

  /** The root goes behind the heap and the value it displaces is held. */
  method TakeTop(ra: array<real>, n: nat, ir: nat) returns (rra: real)
    requires n < ra.Length && ir > 1 && Progress(ra[..], n, 1, ir)
    modifies ra
    ensures Sifting(ra[..], 1, ir - 1, 1, rra) && (forall i, j :: ir - 1 < i < j <= n ==> ra[..][i] <= ra[..][j])
    ensures Under(ra[..], 1, ir - 1, ra[..][ir..n + 1]) && AtMost(rra, ra[..][ir..n + 1])
    ensures Outside(ra[..], old(ra[..]), 1, n) && multiset(ra[..][1 := rra]) == old(multiset(ra[..]))
  {
    ghost var a := ra[..];
    rra := ra[ir];
    TakeRoot(a, n, ir);
    ra[ir] := ra[1];
    assert ra[..] == a[ir := a[1]];
  }

  /** The value taken from behind the heap sinks from the root. */
  method SinkLast(ra: array<real>, n: nat, ir: nat, rra: real, ghost b: seq<real>)
    requires 1 <= ir < n < ra.Length && b == ra[..] && Sifting(b, 1, ir, 1, rra)
    requires forall i, j :: ir < i < j <= n ==> b[i] <= b[j]
    requires Under(b, 1, ir, b[ir + 1..n + 1]) && AtMost(rra, b[ir + 1..n + 1])
    modifies ra
    ensures Progress(ra[..], n, 1, ir) && Outside(ra[..], b, 1, ir) && multiset(ra[..]) == multiset(b[1 := rra])
  {
    SiftDown(ra, 1, ir, rra, b[ir + 1..n + 1]);
    TailKept(b, ra[..], n, 1, ir);
  }

  /** my_heapsort: 1..n sorted, a permutation of the input, everything else untouched. */
  method Sort(ra: array<real>, n: nat)
    requires 2 <= n < ra.Length
    modifies ra
    ensures SortedTo(ra[..], n)
    ensures multiset(ra[..]) == old(multiset(ra[..])) && Outside(ra[..], old(ra[..]), 1, n)
  {
    var ir := n;
    var l := n / 2 + 1;
    var done := false;
    while !done
      invariant 1 <= l <= n / 2 + 1 && 1 <= ir <= n && (!done ==> ir > 1)
      invariant if done then SortedTo(ra[..], n) else Progress(ra[..], n, l, ir)
      invariant l > 1 ==> ir == n
      invariant Outside(ra[..], old(ra[..]), 1, n) && multiset(ra[..]) == old(multiset(ra[..]))
      decreases !done, l + ir
    {
      if l > 1 {
        l := l - 1;
        BuildTurn(ra, n, l, ir);
      } else {
        done := SortTurn(ra, n, ir);
        ir := ir - 1;
      }
    }
  }
}
