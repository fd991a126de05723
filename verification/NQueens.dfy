/**
  Iterative N-Queens backtracking (bench/tinygo/nqueens.go).

  The board size is a parameter here; the program fixes it to 8.  The search keeps
  one column per row in linear memory and walks the search tree without recursion.
  Its partner is the set of all placements, defined without any search.
 */
module NQueens {

  /** The value a two's-complement 32-bit integer holds after computing x. */
  function Wrap32(x: int): (r: int)
    ensures -0x8000_0000 <= r < 0x8000_0000
    ensures (r - x) % 0x1_0000_0000 == 0
    ensures -0x8000_0000 <= x < 0x8000_0000 ==> r == x
  {
    (x + 0x8000_0000) % 0x1_0000_0000 - 0x8000_0000
  }

  lemma WrapAdd(x: int, y: int)
    ensures Wrap32(Wrap32(x) + y) == Wrap32(x + y) == Wrap32(Wrap32(x) + Wrap32(y))
  {
    WrapShift(x, y);
    WrapShift(y, Wrap32(x));
  }

  lemma WrapShift(x: int, y: int)
    ensures Wrap32(Wrap32(x) + y) == Wrap32(x + y)
  {
  }

  lemma WrapTimes(k: int, x: int)
    ensures Wrap32(Wrap32(k * x) + Wrap32(x)) == Wrap32((k + 1) * x)
  {
    WrapAdd(k * x, x);
    assert (k + 1) * x == k * x + x;
  }

  // ----- what is counted -----

  ghost predicate Columns(q: seq<int>, n: nat) {
    forall i :: 0 <= i < |q| ==> 0 <= q[i] < n
  }

  /** No two queens share a column or a diagonal (rows are distinct by construction). */
  ghost predicate NonAttacking(q: seq<int>) {
    forall i, j :: 0 <= i < j < |q| ==> q[i] != q[j] && q[i] - q[j] != j - i && q[j] - q[i] != j - i
  }

  ghost predicate IsSolution(q: seq<int>, n: nat) {
    |q| == n && Columns(q, n) && NonAttacking(q)
  }

  /** All rows of k columns on a board of width n. */
  ghost function AllRows(n: nat, k: nat): set<seq<int>> {
    if k == 0 then {[]} else set q, c | q in AllRows(n, k - 1) && 0 <= c < n :: q + [c]
  }

  lemma {:induction false} AllRowsIsEverything(n: nat, k: nat, q: seq<int>)
    ensures q in AllRows(n, k) <==> |q| == k && Columns(q, n)
  {
    if k > 0 {
      if |q| == k && Columns(q, n) {
        AllRowsIsEverything(n, k - 1, q[..k - 1]);
        assert q == q[..k - 1] + [q[k - 1]];
      }
      if q in AllRows(n, k) {
        var p, c :| p in AllRows(n, k - 1) && 0 <= c < n && q == p + [c];
        AllRowsIsEverything(n, k - 1, p);
      }
    }
  }

  ghost function Solutions(n: nat): set<seq<int>> {
    set q | q in AllRows(n, n) && NonAttacking(q)
  }

  /** The counted set holds every solution and nothing else. */
  lemma SolutionsAreAll(n: nat)
    ensures forall q :: q in Solutions(n) <==> IsSolution(q, n)
  {
    forall q ensures q in Solutions(n) <==> IsSolution(q, n) {
      AllRowsIsEverything(n, n, q);
    }
  }

  // ----- how far the search has come -----

  /** q precedes s in lexicographic order, at a position inside s. */
  ghost predicate Before(q: seq<int>, s: seq<int>) {
    exists k :: 0 <= k < |s| && k < |q| && q[..k] == s[..k] && q[k] < s[k]
  }

  /** q precedes or extends s: the search is past q once it is done with s. */
  ghost predicate Passed(q: seq<int>, s: seq<int>) {
    Before(q, s) || s <= q
  }

  /** The members of `all` that the search has passed. */
  ghost function Met(all: set<seq<int>>, s: seq<int>): set<seq<int>> {
    set q | q in all && Passed(q, s)
  }

  ghost predicate Boards(all: set<seq<int>>, n: nat) {
    forall q :: q in all ==> |q| == n && Columns(q, n)
  }

  lemma PassedStep(q: seq<int>, p: seq<int>, c: int)
    requires |p| < |q|
    ensures Passed(q, p + [c]) <==> Before(q, p) || (p <= q && q[|p|] <= c)
  {
    var s := p + [c];
    if Before(q, s) {
      var k :| 0 <= k < |s| && k < |q| && q[..k] == s[..k] && q[k] < s[k];
      if k < |p| {
        assert s[..k] == p[..k];
      } else {
        assert s[..k] == p;
      }
    }
    if Before(q, p) {
      var k :| 0 <= k < |p| && k < |q| && q[..k] == p[..k] && q[k] < p[k];
      assert s[..k] == p[..k] && s[k] == p[k];
    }
    if p <= q && q[|p|] < c {
      assert s[..|p|] == p == q[..|p|];
    }
    assert s <= q <==> p <= q && q[|p|] == c;
  }

  /** Exhausting a row is the same as being done with its parent. */
  lemma MetBacktrack(all: set<seq<int>>, n: nat, p: seq<int>)
    requires Boards(all, n) && |p| < n
    ensures Met(all, p + [n - 1]) == Met(all, p)
  {
    forall q | q in all ensures Passed(q, p + [n - 1]) <==> Passed(q, p) {
      PassedStep(q, p, n - 1);
    }
  }

  /** An attacked column hides no solution. */
  lemma MetSkip(all: set<seq<int>>, n: nat, p: seq<int>, c: int)
    requires Boards(all, n) && |p| < n && forall q :: q in all ==> !(p + [c] <= q)
    ensures Met(all, p + [c]) == Met(all, p + [c - 1])
  {
    forall q | q in all ensures Passed(q, p + [c]) <==> Passed(q, p + [c - 1]) {
      PassedStep(q, p, c);
      PassedStep(q, p, c - 1);
      assert p <= q && q[|p|] == c ==> p + [c] <= q;
    }
  }

  lemma PassedOnLast(q: seq<int>, p: seq<int>, c: int)
    requires |p| + 1 == |q|
    ensures Passed(q, p + [c]) <==> Passed(q, p + [c - 1]) || q == p + [c]
  {
    PassedStep(q, p, c);
    PassedStep(q, p, c - 1);
    assert p <= q && q[|p|] == c <==> q == p + [c];
  }

  /** A safe column in the last row is exactly one new solution. */
  lemma MetCount(all: set<seq<int>>, n: nat, p: seq<int>, c: int)
    requires Boards(all, n) && |p| + 1 == n && p + [c] in all
    ensures |Met(all, p + [c])| == |Met(all, p + [c - 1])| + 1
  {
    var s := p + [c];
    forall q | q in all ensures Passed(q, s) <==> Passed(q, p + [c - 1]) || q == s {
      PassedOnLast(q, p, c);
    }
    PassedStep(s, p, c - 1);
    assert !Before(s, p);
    assert Met(all, s) == Met(all, p + [c - 1]) + {s};
  }

  /** Descending meets nothing yet. */
  lemma MetDescend(all: set<seq<int>>, n: nat, p: seq<int>, c: int)
    requires Boards(all, n) && |p| + 1 < n
    ensures Met(all, p + [c] + [-1]) == Met(all, p + [c - 1])
  {
    forall q | q in all ensures Passed(q, p + [c] + [-1]) <==> Passed(q, p + [c - 1]) {
      PassedStep(q, p + [c], -1);
      PassedStep(q, p, c - 1);
      BeforeIsPassedLess(q, p, c);
      assert q[|p| + 1] >= 0;
    }
  }

  lemma BeforeIsPassedLess(q: seq<int>, p: seq<int>, c: int)
    requires |p| < |q|
    ensures Before(q, p + [c]) <==> Passed(q, p + [c - 1])
  {
    PassedStep(q, p, c);
    PassedStep(q, p, c - 1);
    var s := p + [c];
    if s <= q {
      assert !Before(q, s);
    }
  }

  lemma MetAtTheStart(all: set<seq<int>>, n: nat)
    requires Boards(all, n) && n > 0
    ensures Met(all, [-1]) == {}
  {
    forall q | q in all ensures !Passed(q, [-1]) {
      PassedStep(q, [], -1);
      assert [] + [-1] == [-1];
    }
  }

  // ----- termination: a number that every step lowers -----

  /** The digits, most significant first, as a number. */
  ghost function Number(d: seq<nat>, base: nat): nat {
    if d == [] then 0 else Number(d[..|d| - 1], base) * base + d[|d| - 1]
  }

  lemma DigitDrop(x: nat, y: nat, d: nat, e: nat, base: nat)
    requires y < x && e < base
    ensures y * base + e < x * base + d
  {
    var z := x - y - 1;
    assert x * base == y * base + z * base + base by { assert x == y + z + 1; }
    assert z * base >= 0;
  }

  lemma {:induction false} NumberDrops(d: seq<nat>, e: seq<nat>, base: nat, k: nat)
    requires |d| == |e| && k < |d| && d[..k] == e[..k] && e[k] < d[k]
    requires forall i :: 0 <= i < |e| ==> e[i] < base
    ensures Number(e, base) < Number(d, base)
  {
    var m := |d| - 1;
    var d', e' := d[..m], e[..m];
    if k == m {
      assert d' == e';
    } else {
      assert d'[..k] == d[..k] && e'[..k] == e[..k];
      NumberDrops(d', e', base, k);
      DigitDrop(Number(d', base), Number(e', base), d[m], e[m], base);
    }
  }

  /** Per row: columns still to try, plus one for a row the search is waiting in. */
  ghost function Digits(q: seq<int>, row: int, n: nat): (d: seq<nat>)
    requires forall i :: 0 <= i < |q| ==> -1 <= q[i] < n
    ensures |d| == |q|
    ensures forall i :: 0 <= i < |d| ==> d[i] == 2 * (n - q[i]) + (if i < row then 1 else 0)
  {
    seq(|q|, i requires 0 <= i < |q| => 2 * (n - q[i]) + (if i < row then 1 else 0))
  }

  ghost function Remaining(q: seq<int>, row: int, n: nat): nat
    requires forall i :: 0 <= i < |q| ==> -1 <= q[i] < n
  {
    Number(Digits(q, row, n), 2 * n + 4)
  }

  lemma RemainingDrops(q: seq<int>, row: int, q': seq<int>, row': int, n: nat, k: nat)
    requires |q| == |q'| && k < |q|
    requires forall i :: 0 <= i < |q| ==> -1 <= q[i] < n && -1 <= q'[i] < n
    requires q[..k] == q'[..k] && k <= row && k <= row'
    requires q[k] < q'[k] || (q[k] == q'[k] && k < row && k == row')
    ensures Remaining(q', row', n) < Remaining(q, row, n)
  {
    var d, e := Digits(q, row, n), Digits(q', row', n);
    forall i | 0 <= i < k ensures d[i] == e[i] {
      assert q[..k][i] == q'[..k][i];
    }
    assert d[..k] == e[..k];
    NumberDrops(d, e, 2 * n + 4, k);
  }

  // ----- one turn of the loop -----

  /** Rows above `row` hold a safe placement, rows below it are still at -1. */
  ghost predicate Searching(q: seq<int>, row: int) {
    && -1 <= row < |q|
    && (forall i :: 0 <= i < |q| ==> -1 <= q[i] < |q|)
    && (forall i :: row < i < |q| ==> q[i] == -1)
    && (forall i :: 0 <= i < row ==> q[i] >= 0)
    && NonAttacking(q[..if row < 0 then 0 else row])
  }

  lemma BackToParent(q: seq<int>, row: nat)
    requires Searching(q, row) && q[row] == |q| - 1
    ensures Searching(q[row := -1], row - 1)
    ensures row > 0 ==> Remaining(q[row := -1], row - 1, |q|) < Remaining(q, row, |q|)
  {
    var q' := q[row := -1];
    if row > 0 {
      assert q'[..row - 1] == q[..row - 1] && q[..row - 1] <= q[..row];
      NonAttackingPrefix(q[..row], q[..row - 1]);
      RemainingDrops(q, row, q', row - 1, |q|, row - 1);
    }
  }

  lemma Backtracks(all: set<seq<int>>, q: seq<int>, row: nat)
    requires Boards(all, |q|) && row < |q| && q[row] == |q| - 1
    ensures Met(all, q[row := -1][..row]) == Met(all, q[..row + 1])
  {
    assert q[row := -1][..row] == q[..row] && q[..row + 1] == q[..row] + [|q| - 1];
    MetBacktrack(all, |q|, q[..row]);
  }

  lemma Advances(q: seq<int>, row: nat, row': nat)
    requires Searching(q, row) && q[row] < |q| - 1 && row <= row' < |q|
    requires row' == row || (row' == row + 1 && NonAttacking(q[..row] + [q[row] + 1]))
    ensures Searching(q[row := q[row] + 1], row')
    ensures Remaining(q[row := q[row] + 1], row', |q|) < Remaining(q, row, |q|)
  {
    var q' := q[row := q[row] + 1];
    assert q'[..row] == q[..row] && q'[..row + 1] == q[..row] + [q[row] + 1];
    RemainingDrops(q, row, q', row', |q|, row);
  }

  lemma AttackedIsSkipped(all: set<seq<int>>, q: seq<int>, row: nat)
    requires all == Solutions(|q|) && row < |q|
    requires !NonAttacking(q[..row] + [q[row] + 1])
    ensures Met(all, q[row := q[row] + 1][..row + 1]) == Met(all, q[..row + 1])
  {
    var p, c := q[..row], q[row] + 1;
    assert q[row := c][..row + 1] == p + [c] && q[..row + 1] == p + [c - 1];
    forall b | b in all ensures |b| == |q| && Columns(b, |q|) && !(p + [c] <= b) {
      SolutionsAreAll(|q|);
      if p + [c] <= b {
        NonAttackingPrefix(b, p + [c]);
      }
    }
    MetSkip(all, |q|, p, c);
  }

  lemma NonAttackingPrefix(q: seq<int>, s: seq<int>)
    requires NonAttacking(q) && s <= q
    ensures NonAttacking(s)
  {
  }

  lemma Rows(q: seq<int>, row: nat, c: int)
    requires row < |q| && q[row] == c - 1
    ensures q[row := c][..row + 1] == q[..row] + [c] && q[..row + 1] == q[..row] + [c - 1]
  {
  }

  lemma LastRowCounts(all: set<seq<int>>, q: seq<int>, row: nat)
    requires Boards(all, |q|) && row == |q| - 1 && q[..row] + [q[row] + 1] in all
    ensures |Met(all, q[row := q[row] + 1][..row + 1])| == |Met(all, q[..row + 1])| + 1
  {
    Rows(q, row, q[row] + 1);
    MetCount(all, |q|, q[..row], q[row] + 1);
  }

  lemma IsAmong(q: seq<int>, row: nat)
    requires Searching(q, row) && row == |q| - 1 && q[row] < |q| - 1 && NonAttacking(q[..row] + [q[row] + 1])
    ensures q[..row] + [q[row] + 1] in Solutions(|q|)
  {
    AllRowsIsEverything(|q|, |q|, q[..row] + [q[row] + 1]);
  }

  lemma SolutionsAreBoards(n: nat)
    ensures Boards(Solutions(n), n)
  {
    SolutionsAreAll(n);
  }

  lemma DescentCountsNothing(all: set<seq<int>>, q: seq<int>, row: nat)
    requires Boards(all, |q|) && Searching(q, row) && row < |q| - 1
    ensures Met(all, q[row := q[row] + 1][..row + 2]) == Met(all, q[..row + 1])
  {
    var p, c := q[..row], q[row] + 1;
    assert q[row := c][..row + 2] == p + [c] + [-1] && q[..row + 1] == p + [c - 1];
    MetDescend(all, |q|, p, c);
  }

  /** The inner loop: is the column free of attacks from the rows above? */
  method IsSafe(queens: array<int>, row: nat, col: int) returns (ok: bool)
    requires row < queens.Length && NonAttacking(queens[..row])
    ensures ok <==> NonAttacking(queens[..row] + [col])
  {
    ghost var s := queens[..row] + [col];
    ok := true;
    var r := 0;
    while r < row
      invariant 0 <= r <= row
      invariant forall i :: 0 <= i < r ==> s[i] != s[row] && s[i] - s[row] != row - i && s[row] - s[i] != row - i
    {
      var d := queens[r] - col;
      if d == 0 || d == r - row || d == row - r {
        assert s[r] == queens[r] && s[row] == col;
        return false;
      }
      r := r + 1;
    }
    assert forall i, j :: 0 <= i < j < row ==> s[i] == queens[..row][i] && s[j] == queens[..row][j];
  }

  /** The search at `row` has counted exactly the solutions it has passed. */
  ghost predicate Counted(all: set<seq<int>>, q: seq<int>, row: int, solutions: int)
    requires -1 <= row < |q|
  {
    solutions == Wrap32(|Met(all, q[..row + 1])|)
  }

  /** A turn keeps the count right and brings the end nearer. */
  ghost predicate Moved(all: set<seq<int>>, q: seq<int>, row: nat, q': seq<int>, row': int, solutions: int)
    requires forall i :: 0 <= i < |q| ==> -1 <= q[i] < |q|
  {
    && Searching(q', row') && Counted(all, q', row', solutions) && |q'| == |q|
    && (row' >= 0 ==> Remaining(q', row', |q|) < Remaining(q, row, |q|))
  }

  /** Where a new column in the current row leads: past an attack, to a solution, or a row down. */
  lemma MovesOn(all: set<seq<int>>, q: seq<int>, row: nat, solutions: int)
    requires all == Solutions(|q|) && Searching(q, row) && Counted(all, q, row, solutions) && q[row] < |q| - 1
    ensures
      var q' := q[row := q[row] + 1];
      if !NonAttacking(q[..row] + [q[row] + 1]) then Moved(all, q, row, q', row, solutions)
      else if row == |q| - 1 then Moved(all, q, row, q', row, Wrap32(solutions + 1))
      else Moved(all, q, row, q', row + 1, solutions)
  {
    SolutionsAreBoards(|q|);
    if !NonAttacking(q[..row] + [q[row] + 1]) {
      Advances(q, row, row);
      AttackedIsSkipped(all, q, row);
    } else if row == |q| - 1 {
      Advances(q, row, row);
      IsAmong(q, row);
      LastRowCounts(all, q, row);
      WrapAdd(|Met(all, q[..row + 1])|, 1);
    } else {
      Advances(q, row, row + 1);
      DescentCountsNothing(all, q, row);
    }
  }

  /** The loop body: try the next column of the current row. */
  method TryNext(queens: array<int>, row: nat, solutions: int, ghost all: set<seq<int>>)
    returns (row': int, solutions': int)
    requires all == Solutions(queens.Length) && Boards(all, queens.Length)
    requires Searching(queens[..], row) && Counted(all, queens[..], row, solutions)
    modifies queens
    ensures Moved(all, old(queens[..]), row, queens[..], row', solutions')
  {
    ghost var q := queens[..];
    row', solutions' := row, solutions;
    queens[row] := queens[row] + 1;
    if queens[row] >= queens.Length {
      BackToParent(q, row);
      Backtracks(all, q, row);
      queens[row] := -1;
      assert queens[..] == q[row := -1];
      row' := row - 1;
      assert Moved(all, q, row, q[row := -1], row - 1, solutions);
      return;
    }
    assert queens[..] == q[row := q[row] + 1] && queens[..row] == q[..row];
    var ok := IsSafe(queens, row, queens[row]);
    MovesOn(all, q, row, solutions);
    if ok {
      if row == queens.Length - 1 {
        solutions' := Wrap32(solutions + 1);
      } else {
        row' := row + 1;
      }
    }
  }

  method ClearBoard(queens: array<int>)
    modifies queens
    ensures forall j :: 0 <= j < queens.Length ==> queens[j] == -1
  {
    for i := 0 to queens.Length
      invariant forall j :: 0 <= j < i ==> queens[j] == -1
    {
      queens[i] := -1;
    }
  }

  /** One pass: every solution is counted once, whatever the scratch memory held. */
  method SolveBoard(queens: array<int>) returns (solutions: int)
    requires 0 < queens.Length < 0x8000_0000
    modifies queens
    ensures solutions == Wrap32(|Solutions(queens.Length)|)
  {
    ghost var all := Solutions(queens.Length);
    SolutionsAreBoards(queens.Length);
    solutions := 0;
    var row := 0;
    ClearBoard(queens);
    MetAtTheStart(all, queens.Length);
    assert queens[..][..1] == [-1];
    while row >= 0
      invariant Searching(queens[..], row)
      invariant Counted(all, queens[..], row, solutions)
      decreases row >= 0, Remaining(queens[..], row, queens.Length)
    {
      row, solutions := TryNext(queens, row, solutions, all);
    }
    assert Met(all, []) == all;
    assert queens[..][..0] == [];
  }

  /** `iters` passes: the total is iters times the number of placements, in 32-bit arithmetic. */
  method Solve(n: nat, iters: int) returns (total: int)
    requires 0 < n < 0x8000_0000
    ensures total == Wrap32((if iters > 0 then iters else 0) * |Solutions(n)|)
  {
    var queens := new int[n];
    ghost var count := |Solutions(n)|;
    total := 0;
    var iter := 0;
    while iter < iters
      invariant 0 <= iter && (iter <= iters || iter == 0)
      invariant total == Wrap32(iter * count)
    {
      var solutions := SolveBoard(queens);
      WrapTimes(iter, count);
      total := Wrap32(total + solutions);
      iter := iter + 1;
    }
  }
}
