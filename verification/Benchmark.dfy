/** The benchmark: every rank writes its own interleaved cells under the lock, and one rank reads them all back. */
module Benchmark {
  import opened Hoards

  /** Where a rank is inside one write. */
  datatype Phase = Out | Locked | Growing | Ready | Stored

  datatype Proc = Proc(item: nat, phase: Phase)

  const NOBODY: int := -1

  /** The shared cells, the holder of the lock, and every rank's progress; `fault` records a store outside the cells. */
  datatype Bench = Bench(cells: seq<int>, owner: int, procs: seq<Proc>, fault: bool)

  /** The cell of a rank's item among `n` ranks. */
  function Cell(n: nat, item: nat, rank: nat): nat { item * n + rank }

  function Start(n: nat): Bench { Bench([], NOBODY, seq(n, _ => Proc(0, Out)), false) }

  ghost predicate Enabled(y: Bench, items: nat, r: nat) {
    r < |y.procs| && (y.procs[r].phase == Out ==> y.procs[r].item < items && y.owner == NOBODY)
  }

  /** One step of rank `r`: take the lock, check the size, grow, store the cell, give the lock back. */
  function Step(y: Bench, r: nat): Bench
    requires r < |y.procs|
  {
    var p, off := y.procs[r], Cell(|y.procs|, y.procs[r].item, r);
    match p.phase
    case Out => y.(owner := r, procs := y.procs[r := p.(phase := Locked)])
    case Locked => y.(procs := y.procs[r := p.(phase := if |y.cells| < off + 1 then Growing else Ready)])
    case Growing =>
      y.(cells := y.cells + seq(|y.cells| + 2 * (off + 1), _ => 0), procs := y.procs[r := p.(phase := Ready)])
    case Ready =>
      y.(cells := if off < |y.cells| then y.cells[off := off + 100] else y.cells,
         fault := y.fault || off >= |y.cells|,
         procs := y.procs[r := p.(phase := Stored)])
    case Stored => y.(owner := NOBODY, procs := y.procs[r := Proc(p.item + 1, Out)])
  }

  ghost predicate Moves(x: Bench, items: nat, r: nat, y: Bench) { Enabled(x, items, r) && y == Step(x, r) }

  /** The ranks in `acts` take one step each, in that order. */
  ghost predicate Runs(n: nat, items: nat, acts: seq<nat>, y: Bench)
    decreases |acts|
  {
    if acts == [] then y == Start(n)
    else var a, r := acts[|acts| - 1], acts[..|acts| - 1];
         exists x :: Moves(x, items, a, y) && Runs(n, items, r, x)
  }

  // ---------- the cells are a bijection ----------

  /** The offsets of `n` ranks are a bijection onto the naturals: each cell has one rank and one item. */
  lemma CellBijective(n: nat, j: nat)
    requires n > 0
    ensures Cell(n, j / n, j % n) == j && j % n < n
    ensures forall i: nat, r: nat {:trigger Cell(n, i, r)} :: r < n && Cell(n, i, r) == j ==> i == j / n && r == j % n
  {
    forall i: nat, r: nat | r < n && Cell(n, i, r) == j
      ensures i == j / n && r == j % n
    {
      OnlyCell(n, i, r, j / n, j % n);
    }
  }

  lemma OnlyCell(n: nat, i: nat, r: nat, k: nat, q: nat)
    requires r < n && q < n && i * n + r == k * n + q
    ensures i == k && r == q
  {
    if i < k { Apart(n, i, k); }
    if k < i { Apart(n, k, i); }
  }

  lemma Apart(n: nat, i: nat, k: nat)
    requires i < k
    ensures i * n + n <= k * n
  {
    assert (k - i - 1) * n >= 0;
    assert k * n == i * n + n + (k - i - 1) * n;
  }

  /** They are exactly the cells below items * ranks. */
  lemma CellRange(n: nat, items: nat, j: nat)
    requires n > 0
    ensures j < items * n <==> j / n < items
  {
    CellBijective(n, j);
    if j / n < items { Apart(n, j / n, items); }
    if j / n > items { Apart(n, items, j / n); }
  }

  // ---------- the invariant ----------

  /** Cell `j` has been stored. */
  ghost predicate Written(procs: seq<Proc>, j: nat)
    requires |procs| > 0
  {
    var p := procs[j % |procs|];
    j / |procs| < p.item || (j / |procs| == p.item && p.phase == Stored)
  }

  /** Exact contents: a stored cell holds its own value, every other cell zero, and no stored cell is missing. */
  ghost predicate Contents(y: Bench)
    requires |y.procs| > 0
  {
    && (forall j: nat {:trigger Written(y.procs, j)} :: Written(y.procs, j) ==> j < |y.cells|)
    && (forall j {:trigger y.cells[j]} :: 0 <= j < |y.cells| ==>
        y.cells[j] == if Written(y.procs, j) then j + 100 else 0)
  }

  /** The lock holder is the one rank inside a write, and knows what its size check told it. */
  ghost predicate Exclusive(y: Bench, items: nat) {
    && !y.fault
    && (forall r :: 0 <= r < |y.procs| ==> (y.procs[r].phase != Out <==> y.owner == r))
    && (forall r :: 0 <= r < |y.procs| ==>
        && y.procs[r].item <= items
        && (y.procs[r].phase != Out ==> y.procs[r].item < items))
    && (forall r :: 0 <= r < |y.procs| && y.procs[r].phase == Ready ==> Cell(|y.procs|, y.procs[r].item, r) < |y.cells|)
    && (forall r :: 0 <= r < |y.procs| && y.procs[r].phase == Growing ==>
        Cell(|y.procs|, y.procs[r].item, r) >= |y.cells|)
    && (y.owner == NOBODY || 0 <= y.owner < |y.procs|)
  }

  lemma StepExclusive(x: Bench, items: nat, r: nat, y: Bench)
    requires Exclusive(x, items) && Moves(x, items, r, y)
    ensures Exclusive(y, items)
  {
  }

  lemma StepContents(x: Bench, items: nat, r: nat, y: Bench)
    requires |x.procs| > 0 && Exclusive(x, items) && Contents(x) && Moves(x, items, r, y)
    ensures Contents(y)
  {
    hide Cell;
    var n := |x.procs|;
    forall j: nat | true
      ensures Written(y.procs, j) <==>
        Written(x.procs, j) || (x.procs[r].phase == Ready && j == Cell(n, x.procs[r].item, r))
    {
      CellBijective(n, j);
    }
  }

  lemma {:induction false} Invariant(n: nat, items: nat, acts: seq<nat>, y: Bench)
    requires n > 0 && Runs(n, items, acts, y)
    ensures |y.procs| == n && Exclusive(y, items) && Contents(y)
    decreases |acts|
  {
    hide Exclusive, Contents;
    if acts == [] {
      StartOk(n, items);
    } else {
      var a, r := acts[|acts| - 1], acts[..|acts| - 1];
      var x :| Moves(x, items, a, y) && Runs(n, items, r, x);
      Invariant(n, items, r, x);
      StepExclusive(x, items, a, y);
      StepContents(x, items, a, y);
    }
  }

  lemma StartOk(n: nat, items: nat)
    requires n > 0
    ensures Exclusive(Start(n), items) && Contents(Start(n))
  {
  }

  ghost predicate Finished(y: Bench, items: nat) {
    forall r :: 0 <= r < |y.procs| ==> y.procs[r] == Proc(items, Out)
  }

  /** Under every interleaving, no store misses the cells, and once all ranks are done cell j holds j + 100 for every j
      below items * ranks. */
  lemma AllWritten(n: nat, items: nat, acts: seq<nat>, y: Bench)
    requires n > 0 && Runs(n, items, acts, y)
    ensures !y.fault
    ensures Finished(y, items) ==>
      && items * n <= |y.cells| && (forall j :: 0 <= j < items * n ==> y.cells[j] == j + 100)
      && (forall j :: items * n <= j < |y.cells| ==> y.cells[j] == 0)
  {
    hide Contents, Finished;
    Invariant(n, items, acts, y);
    if Finished(y, items) { AllThere(y, items); }
  }

  lemma AllThere(y: Bench, items: nat)
    requires |y.procs| > 0 && Contents(y) && Finished(y, items)
    ensures var total := items * |y.procs|;
            && total <= |y.cells| && (forall j :: 0 <= j < total ==> y.cells[j] == j + 100)
            && (forall j :: total <= j < |y.cells| ==> y.cells[j] == 0)
  {
    hide Written;
    var n := |y.procs|;
    var total := items * n;
    forall j: nat | true
      ensures Written(y.procs, j) <==> j < total
    {
      CellRange(n, items, j);
      WrittenAtEnd(y, items, j);
    }
    if total > 0 { assert Written(y.procs, total - 1); }
  }

  lemma WrittenAtEnd(y: Bench, items: nat, j: nat)
    requires |y.procs| > 0 && Finished(y, items)
    ensures Written(y.procs, j) <==> j / |y.procs| < items
  {
    CellBijective(|y.procs|, j);
  }

  // ---------- no deadlock, and every run ends ----------

  /** Until all ranks are done, some rank can take a step. */
  lemma Progress(n: nat, items: nat, acts: seq<nat>, y: Bench)
    requires n > 0 && Runs(n, items, acts, y) && !Finished(y, items)
    ensures exists r: nat :: Enabled(y, items, r)
  {
    Invariant(n, items, acts, y);
    if y.owner == NOBODY {
      var r: nat :| r < |y.procs| && y.procs[r] != Proc(items, Out);
      assert Enabled(y, items, r);
    } else {
      assert Enabled(y, items, y.owner);
    }
  }

  function PhaseNumber(f: Phase): nat {
    match f case Out => 0 case Locked => 1 case Growing => 2 case Ready => 3 case Stored => 4
  }

  /** Steps rank by rank still to come, at most. */
  ghost function Left(procs: seq<Proc>, items: nat): int {
    if procs == [] then 0
    else var p := procs[|procs| - 1];
         Left(procs[..|procs| - 1], items) + 5 * (items - p.item) - PhaseNumber(p.phase)
  }

  lemma {:induction false} LeftUpdate(procs: seq<Proc>, items: nat, r: nat, p: Proc)
    requires r < |procs|
    ensures Left(procs[r := p], items)
         == Left(procs, items) + 5 * (procs[r].item - p.item) + PhaseNumber(procs[r].phase) - PhaseNumber(p.phase)
  {
    var m, q := |procs| - 1, procs[r := p];
    if r == m {
      assert q[..m] == procs[..m];
    } else {
      LeftUpdate(procs[..m], items, r, p);
      assert q[..m] == procs[..m][r := p];
    }
  }

  lemma {:induction false} LeftBounds(procs: seq<Proc>, items: nat)
    requires forall r :: 0 <= r < |procs| ==>
        && procs[r].item <= items
        && (procs[r].phase != Out ==> procs[r].item < items)
    ensures 0 <= Left(procs, items)
  {
    if procs != [] { LeftBounds(procs[..|procs| - 1], items); }
  }

  lemma {:induction false} LeftStart(n: nat, items: nat)
    ensures Left(seq(n, _ => Proc(0, Out)), items) == 5 * items * n
  {
    var s := seq(n, _ => Proc(0, Out));
    if n > 0 {
      LeftStart(n - 1, items);
      assert s[..n - 1] == seq(n - 1, _ => Proc(0, Out));
      assert 5 * items * n == 5 * items * (n - 1) + 5 * items;
    }
  }

  /** A run of `items` writes by each of `n` ranks has at most 5 * items * n steps. */
  lemma {:induction false} RunsEnd(n: nat, items: nat, acts: seq<nat>, y: Bench)
    requires n > 0 && Runs(n, items, acts, y)
    ensures |acts| + Left(y.procs, items) <= 5 * items * n && |acts| <= 5 * items * n
    decreases |acts|
  {
    hide Exclusive, Contents, Left, Moves;
    Invariant(n, items, acts, y);
    LeftOk(y, items);
    if acts == [] {
      LeftStart(n, items);
    } else {
      var a, r := acts[|acts| - 1], acts[..|acts| - 1];
      var x :| Moves(x, items, a, y) && Runs(n, items, r, x);
      RunsEnd(n, items, r, x);
      LeftStep(x, items, a, y);
    }
  }

  lemma LeftOk(y: Bench, items: nat)
    requires Exclusive(y, items)
    ensures Left(y.procs, items) >= 0
  {
    LeftBounds(y.procs, items);
  }

  lemma LeftStep(x: Bench, items: nat, r: nat, y: Bench)
    requires Moves(x, items, r, y)
    ensures Left(y.procs, items) < Left(x.procs, items)
  {
    hide Left, Cell;
    LeftUpdate(x.procs, items, r, y.procs[r]);
  }

  // ---------- one write, and the read-back ----------

  /** The step after the size check; a step when there is nothing to grow is no step. */
  function Grow(y: Bench, r: nat): Bench
    requires r < |y.procs|
  {
    if y.procs[r].phase == Growing then Step(y, r) else y
  }

  /** The steps of one write, uninterrupted, do what Hoard.Put does with one cell. */
  lemma OneWrite(y: Bench, items: nat, r: nat)
    requires Enabled(y, items, r) && y.procs[r].phase == Out && !y.fault
    ensures var off, c := Cell(|y.procs|, y.procs[r].item, r), Step(Step(Grow(Step(Step(y, r), r), r), r), r).cells;
            && |c| == Grown(|y.cells|, off + 1)
            && forall i :: 0 <= i < |c| ==> c[i] == if i
                == off then off + 100 else if i < |y.cells| then y.cells[i] else 0
  {
    hide Cell;
  }

  /** How many cells below `n` do not hold their own value. */
  ghost function Wrong(cells: seq<int>, n: nat): nat
    requires n <= |cells|
  {
    if n == 0 then 0 else Wrong(cells, n - 1) + if cells[n - 1] == n - 1 + 100 then 0 else 1
  }

  lemma {:induction false} WrongGrows(cells: seq<int>, i: nat, n: nat)
    requires i <= n <= |cells|
    ensures Wrong(cells, i) <= Wrong(cells, n)
  {
    if i < n { WrongGrows(cells, i, n - 1); }
  }

  lemma {:induction false} NoneWrong(cells: seq<int>, n: nat)
    requires n <= |cells|
    ensures Wrong(cells, n) == 0 <==> forall j :: 0 <= j < n ==> cells[j] == j + 100
  {
    if n > 0 { NoneWrong(cells, n - 1); }
  }

  /** It is the number of cells below `n` that do not hold 100 more than their index. */
  lemma {:induction false} WrongCounts(cells: seq<int>, n: nat)
    requires n <= |cells|
    ensures Wrong(cells, n) == |set j | 0 <= j < n && cells[j] != j + 100|
  {
    var a := set j | 0 <= j < n && cells[j] != j + 100;
    if n == 0 {
      assert a == {};
    } else {
      WrongCounts(cells, n - 1);
      var b := set j | 0 <= j < n - 1 && cells[j] != j + 100;
      assert a == if cells[n - 1] != n - 1 + 100 then b + {n - 1} else b;
    }
  }

  /** The read-back of the first rank: it counts wrong cells and gives up at the sixth. */
  method ReadBack(c: Context, items: nat, nprocs: nat) returns (nerrors: nat)
    requires c.h.Valid() && !c.locked && items * nprocs <= |c.h.cells|
    modifies c, c.h
    ensures c.h.cells == old(c.h.cells)
    ensures nerrors == if Wrong(c.h.cells, items * nprocs) > 5 then 6 else Wrong(c.h.cells, items * nprocs)
    ensures nerrors == 0 <==> forall j :: 0 <= j < items * nprocs ==> c.h.cells[j] == j + 100
  {
    hide Wrong, Hoard.Valid;
    nerrors := 0;
    var j := 0;
    var compare := new int[1](_ => -9999);
    ghost var total, cells := items * nprocs, c.h.cells;
    WrongStep(cells, 0);
    NoneWrong(cells, total);
    while j < items * nprocs
      invariant 0 <= j <= total && c.h.Valid() && !c.locked && c.h.cells == cells && compare.Length == 1
      invariant nerrors == Wrong(cells, j) <= 5
    {
      WrongStep(cells, j + 1);
      WrongGrows(cells, j + 1, total);
      ReadCell(c, j, compare);
      if compare[0] != j + 100 {
        nerrors := nerrors + 1;
      }
      if nerrors > 5 {
        break;
      }
      j := j + 1;
    }
  }

  /** Once every rank is done, nothing is wrong, whatever the interleaving was. */
  lemma NothingWrong(n: nat, items: nat, acts: seq<nat>, y: Bench)
    requires n > 0 && Runs(n, items, acts, y) && Finished(y, items)
    ensures items * n <= |y.cells| && Wrong(y.cells, items * n) == 0
  {
    hide Runs, Finished, Wrong;
    AllWritten(n, items, acts, y);
    NoneWrong(y.cells, items * n);
  }

  /** The whole benchmark: after the barrier the read-back of the cells the ranks have written reports no error. */
  method ReadFinished(c: Context, items: nat, nprocs: nat, ghost acts: seq<nat>, ghost y: Bench) returns (nerrors: nat)
    requires nprocs > 0 && Runs(nprocs, items, acts, y) && Finished(y, items)
    requires c.h.Valid() && !c.locked && c.h.cells == y.cells
    modifies c, c.h
    ensures nerrors == 0
  {
    hide Runs, Finished, Wrong, Hoard.Valid;
    NothingWrong(nprocs, items, acts, y);
    nerrors := ReadBack(c, items, nprocs);
  }

  /** One remote read of eight bytes. */
  method ReadCell(c: Context, j: nat, compare: array<int>)
    requires c.h.Valid() && !c.locked && j < |c.h.cells| && compare.Length == 1
    modifies c, c.h, compare
    ensures c.h.Valid() && !c.locked && c.h.cells == old(c.h.cells) && compare[0] == c.h.cells[j]
  {
    hide Hoard.Valid;
    var _ := c.Io(8, j, compare, false);
    assert compare[0] == c.h.Value(j + 0);
  }

  lemma WrongStep(cells: seq<int>, n: nat)
    requires n <= |cells|
    ensures Wrong(cells, n) == if n == 0 then 0 else Wrong(cells, n - 1) + if cells[n - 1] == n - 1 + 100 then 0 else 1
  {
  }
}
