/** Fraction-free (Bareiss) Gaussian elimination of one n-by-n matrix held
    row-major in a flat buffer: the pivot search `ffge_pivot_find`, the exact
    kernel `ffge` and the prime-field kernel `ffge_prim`.

    Each kernel is specified by the pure function `Eliminate`, which walks the
    columns exactly as the C loops do and yields the final buffer and the
    pivot count; the methods are proved to compute it. About `Eliminate` it is
    proved that the count lies in [0, n], that the final buffer is in row
    echelon form with exactly `rank` nonzero rows (the count is the number of
    pivots found), and that the prime-field kernel keeps every entry in
    (-P, P); its update loops check at each store, from that invariant,
    that no product overflows 64 bits. */
module Ffge {
  import opened CArith
  import opened Header
  import opened Layout
  import opened Matrix

  // ----- ffge_pivot_find ------------------------------------------------------

  /** The first row at or below `pr` whose entry in column `pc` is nonzero,
      or `n` when there is none. */
  function FirstNonzeroRow(s: seq<int>, n: nat, pr: nat, pc: nat): (i: nat)
    requires |s| == n * n && pr <= n && (pr < n ==> pc < n)
    ensures pr <= i <= n
    ensures forall r :: pr <= r < i ==> At(s, n, r, pc) == 0
    ensures i < n ==> At(s, n, i, pc) != 0
    decreases n - pr
  {
    if pr == n then n
    else if At(s, n, pr, pc) != 0 then pr
    else FirstNonzeroRow(s, n, pr + 1, pc)
  }

  /** The buffer after `ffge_pivot_find(m, n, pr, pc)`: unchanged when no
      pivot exists or when it is already in row `pr`; otherwise rows `pr` and
      `i` exchanged in columns pc .. n-1, where `i` is the first nonzero row. */
  function PivotMoved(s: seq<int>, n: nat, pr: nat, pc: nat): (t: seq<int>)
    requires |s| == n * n && pr <= n && (pr < n ==> pc < n)
    ensures |t| == n * n
  {
    var i := FirstNonzeroRow(s, n, pr, pc);
    if i == n || i == pr then s else SwapRowSegment(s, n, pr, i, pc, n)
  }

  /** When column `pc` has a nonzero entry at or below row `pr`, the pivot
      search leaves the first one in row `pr`. */
  lemma PivotLands(s: seq<int>, n: nat, pr: nat, pc: nat)
    requires |s| == n * n && pr <= n && (pr < n ==> pc < n)
    ensures var i := FirstNonzeroRow(s, n, pr, pc);
      i < n ==> pr < n && pc < n && At(PivotMoved(s, n, pr, pc), n, pr, pc) == At(s, n, i, pc) != 0
  {
    var i := FirstNonzeroRow(s, n, pr, pc);
    if i < n && i != pr {
      SwapRowSegmentAt(s, n, pr, i, pc, n, pr, pc);
    }
  }

  /** What the pivot search does to each entry: when a pivot row `i` exists,
      entry (a, b) comes from the row RowSwapSource gives (rows `pr` and `i`
      trade their entries in columns pc .. n-1, nothing else moves); when no
      pivot exists, nothing changes. */
  lemma PivotMovedCells(s: seq<int>, n: nat, pr: nat, pc: nat)
    requires |s| == n * n && pr <= n && (pr < n ==> pc < n)
    ensures var i := FirstNonzeroRow(s, n, pr, pc);
      forall a, b :: 0 <= a < n && 0 <= b < n ==>
        At(PivotMoved(s, n, pr, pc), n, a, b) ==
          if i < n then At(s, n, RowSwapSource(a, b, pr, i, pc, n), b) else At(s, n, a, b)
  {
    var i := FirstNonzeroRow(s, n, pr, pc);
    if i < n {
      SwapRowSegmentCells(s, n, pr, i, pc, n);
      if i == pr {
        SwapRowSegmentNoop(s, n, pr, i, pc, n);
      }
    }
  }

  /** `ffge_pivot_find` (ffge.c): scan column `pc` from row `pr` down for the
      first nonzero entry; return -1 when there is none, otherwise bring it
      to row `pr` by exchanging the tails of the two rows and return 0. */
  method PivotFind(m: array<int>, n: nat, pr: nat, pc: nat) returns (r: int)
    requires m.Length == n * n && pr <= n && (pr < n ==> pc < n)
    modifies m
    ensures r == -1 || r == 0
    ensures r == -1 <==> forall i :: pr <= i < n ==> At(old(m[..]), n, i, pc) == 0
    ensures r == -1 <==> FirstNonzeroRow(old(m[..]), n, pr, pc) == n
    ensures m[..] == PivotMoved(old(m[..]), n, pr, pc)
    ensures r == -1 ==> m[..] == old(m[..])
    ensures r == 0 ==> (pr < n && pc < n &&
      At(m[..], n, pr, pc) == At(old(m[..]), n, FirstNonzeroRow(old(m[..]), n, pr, pc), pc) != 0)
  {
    ghost var s := m[..];
    var i := pr;
    while i < n
      invariant pr <= i <= n && m[..] == s
      invariant FirstNonzeroRow(s, n, i, pc) == FirstNonzeroRow(s, n, pr, pc)
      decreases n - i
    {
      IdxInRange(n, i, pc);
      if m[Idx(n, i, pc)] != 0 {
        break;
      }
      i := i + 1;
    }
    assert i == FirstNonzeroRow(s, n, pr, pc);
    if i == n {
      return -1;
    }
    PivotLands(s, n, pr, pc);
    if i > pr {
      SwapRows(m, n, pr, i, pc);
    }
    return 0;
  }

  // ----- one pivot step of the update loops -----------------------------------

  /** The two kernels differ only in how an updated entry is reduced. */
  datatype Kernel = Exact | Modular

  /** The new value of m[i][j]: `(m_ij*m_rc - m_pj*m_ic) / dv` for the exact
      kernel, `(m_ij*m_rc - m_pj*m_ic) % FFGE_PRIM` for the prime-field one,
      both with C's truncating operators. */
  function Update(kernel: Kernel, dv: int, mij: int, mrc: int, mpj: int, mic: int): int
    requires dv != 0
  {
    match kernel
    case Exact => CDiv(mij * mrc - mpj * mic, dv)
    case Modular => CRem(mij * mrc - mpj * mic, Prim)
  }

  /** Entry (a, b) after the update loops of the pivot at (pr, pc): rows up to
      `pr` and columns left of `pc` keep their values, the pivot column is
      cleared below the pivot, and the rest is updated from the old values. */
  function EliminatedCell(kernel: Kernel, s: seq<int>, n: nat, pr: nat, pc: nat, dv: int, a: nat, b: nat): int
    requires |s| == n * n && pr < n && pc < n && dv != 0 && a < n && b < n
  {
    if a <= pr || b < pc then At(s, n, a, b)
    else if b == pc then 0
    else Update(kernel, dv, At(s, n, a, b), At(s, n, pr, pc), At(s, n, pr, b), At(s, n, a, pc))
  }

  /** Entry (a, b) of the buffer EliminateBelow builds. */
  function EliminatedEntry(kernel: Kernel, s: seq<int>, n: nat, pr: nat, pc: nat, dv: int, a: nat, b: nat): int
    requires |s| == n * n && pr < n && pc < n && dv != 0
  {
    if a < n && b < n then EliminatedCell(kernel, s, n, pr, pc, dv, a, b) else 0
  }

  /** Entry (a, b) while the update loops run: rows pr+1 .. i-1 are
      finished, and so are columns pc+1 .. j-1 of row i. */
  function EliminatedUpToEntry(kernel: Kernel, s: seq<int>, n: nat, pr: nat, pc: nat, dv: int, i: nat, j: nat,
                               a: nat, b: nat): int
    requires |s| == n * n && pr < n && pc < n && dv != 0
  {
    if a < n && b < n then
      (if pr < a < i || (a == i && pc < b < j) then EliminatedCell(kernel, s, n, pr, pc, dv, a, b) else At(s, n, a, b))
    else 0
  }

  /** The buffer after the update loops of the pivot at (pr, pc). */
  function EliminateBelow(kernel: Kernel, s: seq<int>, n: nat, pr: nat, pc: nat, dv: int): (t: seq<int>)
    requires |s| == n * n && pr < n && pc < n && dv != 0
    ensures |t| == n * n
  {
    Build(n, (a: nat, b: nat) => EliminatedEntry(kernel, s, n, pr, pc, dv, a, b))
  }

  lemma EliminateBelowCells(kernel: Kernel, s: seq<int>, n: nat, pr: nat, pc: nat, dv: int)
    requires |s| == n * n && pr < n && pc < n && dv != 0
    ensures forall a, b :: 0 <= a < n && 0 <= b < n ==>
      At(EliminateBelow(kernel, s, n, pr, pc, dv), n, a, b) == EliminatedCell(kernel, s, n, pr, pc, dv, a, b)
  {
    BuildCells(n, (a: nat, b: nat) => EliminatedEntry(kernel, s, n, pr, pc, dv, a, b));
  }

  /** After a pivot step every entry below the pivot is zero, rows 0 .. pr
      (the pivot row included) are not written, and neither are the columns
      left of the pivot. */
  lemma EliminateBelowFrame(kernel: Kernel, s: seq<int>, n: nat, pr: nat, pc: nat, dv: int)
    requires |s| == n * n && pr < n && pc < n && dv != 0
    ensures var t := EliminateBelow(kernel, s, n, pr, pc, dv);
      (forall a :: pr < a < n ==> At(t, n, a, pc) == 0) &&
      (forall a, b :: 0 <= a <= pr && 0 <= b < n ==> At(t, n, a, b) == At(s, n, a, b)) &&
      (forall a, b :: 0 <= a < n && 0 <= b < pc ==> At(t, n, a, b) == At(s, n, a, b))
  {
    EliminateBelowCells(kernel, s, n, pr, pc, dv);
  }

  /** The buffer while the update loops run: rows pr+1 .. i-1 are finished
      and row i is finished in columns pc+1 .. j-1 (its pivot-column entry is
      cleared last). */
  function EliminatedUpTo(kernel: Kernel, s: seq<int>, n: nat, pr: nat, pc: nat, dv: int, i: nat, j: nat): (t: seq<int>)
    requires |s| == n * n && pr < n && pc < n && dv != 0
    ensures |t| == n * n
  {
    Build(n, (a: nat, b: nat) => EliminatedUpToEntry(kernel, s, n, pr, pc, dv, i, j, a, b))
  }

  lemma EliminatedUpToCells(kernel: Kernel, s: seq<int>, n: nat, pr: nat, pc: nat, dv: int, i: nat, j: nat)
    requires |s| == n * n && pr < n && pc < n && dv != 0
    ensures forall a, b :: 0 <= a < n && 0 <= b < n ==>
      At(EliminatedUpTo(kernel, s, n, pr, pc, dv, i, j), n, a, b) ==
        if pr < a < i || (a == i && pc < b < j) then EliminatedCell(kernel, s, n, pr, pc, dv, a, b) else At(s, n, a, b)
  {
    BuildCells(n, (a: nat, b: nat) => EliminatedUpToEntry(kernel, s, n, pr, pc, dv, i, j, a, b));
  }

  /** Before the first row nothing is updated; after the last row the
      buffer is the one of EliminateBelow. */
  lemma EliminatedUpToEnds(kernel: Kernel, s: seq<int>, n: nat, pr: nat, pc: nat, dv: int)
    requires |s| == n * n && pr < n && pc < n && dv != 0
    ensures EliminatedUpTo(kernel, s, n, pr, pc, dv, pr + 1, pc + 1) == s
    ensures EliminatedUpTo(kernel, s, n, pr, pc, dv, n, pc + 1) == EliminateBelow(kernel, s, n, pr, pc, dv)
  {
    EliminatedUpToCells(kernel, s, n, pr, pc, dv, pr + 1, pc + 1);
    EliminatedUpToCells(kernel, s, n, pr, pc, dv, n, pc + 1);
    EliminateBelowCells(kernel, s, n, pr, pc, dv);
    SameCells(EliminatedUpTo(kernel, s, n, pr, pc, dv, pr + 1, pc + 1), s, n);
    SameCells(EliminatedUpTo(kernel, s, n, pr, pc, dv, n, pc + 1), EliminateBelow(kernel, s, n, pr, pc, dv), n);
  }

  /** The store of the inner loop body finishes entry (i, j); the values it
      reads are still the ones from before the pivot step. */
  lemma EliminatedUpToInner(kernel: Kernel, s: seq<int>, n: nat, pr: nat, pc: nat, dv: int, i: nat, j: nat)
    requires |s| == n * n && pr < i < n && pc < j < n && dv != 0
    ensures var t := EliminatedUpTo(kernel, s, n, pr, pc, dv, i, j);
      Idx(n, i, j) < n * n && Idx(n, pr, j) < n * n &&
      t[Idx(n, i, j)] == At(s, n, i, j) && t[Idx(n, pr, j)] == At(s, n, pr, j) &&
      t[Idx(n, i, j) := Update(kernel, dv, At(s, n, i, j), At(s, n, pr, pc), At(s, n, pr, j), At(s, n, i, pc))]
        == EliminatedUpTo(kernel, s, n, pr, pc, dv, i, j + 1)
  {
    var t := EliminatedUpTo(kernel, s, n, pr, pc, dv, i, j);
    var u := EliminatedUpTo(kernel, s, n, pr, pc, dv, i, j + 1);
    var v := Update(kernel, dv, At(s, n, i, j), At(s, n, pr, pc), At(s, n, pr, j), At(s, n, i, pc));
    EliminatedUpToCells(kernel, s, n, pr, pc, dv, i, j);
    EliminatedUpToCells(kernel, s, n, pr, pc, dv, i, j + 1);
    IdxInRange(n, i, j);
    var t1 := t[Idx(n, i, j) := v];
    assert |t1| == n * n;
    WriteCell(t, n, i, j, v);
    forall a, b | 0 <= a < n && 0 <= b < n
      ensures At(t1, n, a, b) == At(u, n, a, b)
    {
      assert At(t1, n, a, b) == if a == i && b == j then v else At(t, n, a, b);
    }
    SameCells(t1, u, n);
    IdxInRange(n, pr, j);
    assert At(t, n, i, j) == At(s, n, i, j) && At(t, n, pr, j) == At(s, n, pr, j);
  }

  /** At the start of row i its pivot-column entry still holds its old value. */
  lemma EliminatedUpToRowStart(kernel: Kernel, s: seq<int>, n: nat, pr: nat, pc: nat, dv: int, i: nat)
    requires |s| == n * n && pr < i < n && pc < n && dv != 0
    ensures var t := EliminatedUpTo(kernel, s, n, pr, pc, dv, i, pc + 1);
      Idx(n, i, pc) < n * n && t[Idx(n, i, pc)] == At(s, n, i, pc)
  {
    EliminatedUpToCells(kernel, s, n, pr, pc, dv, i, pc + 1);
    IdxInRange(n, i, pc);
    assert At(EliminatedUpTo(kernel, s, n, pr, pc, dv, i, pc + 1), n, i, pc) == At(s, n, i, pc);
  }

  /** Clearing the pivot-column entry of row i finishes that row. */
  lemma EliminatedUpToRow(kernel: Kernel, s: seq<int>, n: nat, pr: nat, pc: nat, dv: int, i: nat)
    requires |s| == n * n && pr < i < n && pc < n && dv != 0
    ensures var t := EliminatedUpTo(kernel, s, n, pr, pc, dv, i, n);
      Idx(n, i, pc) < n * n &&
      t[Idx(n, i, pc) := 0] == EliminatedUpTo(kernel, s, n, pr, pc, dv, i + 1, pc + 1)
  {
    var t := EliminatedUpTo(kernel, s, n, pr, pc, dv, i, n);
    var u := EliminatedUpTo(kernel, s, n, pr, pc, dv, i + 1, pc + 1);
    EliminatedUpToCells(kernel, s, n, pr, pc, dv, i, n);
    EliminatedUpToCells(kernel, s, n, pr, pc, dv, i + 1, pc + 1);
    IdxInRange(n, i, pc);
    var t1 := t[Idx(n, i, pc) := 0];
    assert |t1| == n * n;
    WriteCell(t, n, i, pc, 0);
    forall a, b | 0 <= a < n && 0 <= b < n
      ensures At(t1, n, a, b) == At(u, n, a, b)
    {
      assert At(t1, n, a, b) == if a == i && b == pc then 0 else At(t, n, a, b);
    }
    SameCells(t1, u, n);
  }

  /** With every operand in (-P, P), both products and their difference fit
      in a signed 64-bit integer and the reduced value is again in (-P, P):
      the prime-field update never overflows. */
  lemma ModularUpdateInRange(mij: int, mrc: int, mpj: int, mic: int)
    requires -Prim < mij < Prim && -Prim < mrc < Prim && -Prim < mpj < Prim && -Prim < mic < Prim
    ensures IsInt64(mij * mrc) && IsInt64(mpj * mic) && IsInt64(mij * mrc - mpj * mic)
    ensures -Prim < Update(Modular, 1, mij, mrc, mpj, mic) < Prim
  {
    ProductBound(mij, mrc);
    ProductBound(mpj, mic);
    CRemCongruent(mij * mrc - mpj * mic, Prim);
  }

  lemma ProductBound(x: int, y: int)
    requires -Prim < x < Prim && -Prim < y < Prim
    ensures -Prim * Prim < x * y < Prim * Prim
  {
    var ax, ay := Abs(x), Abs(y);
    MulMonotone(ax, Prim - 1, ay);
    MulMonotone(ay, Prim - 1, Prim - 1);
    assert ax * ay < Prim * Prim;
    if (x < 0) == (y < 0) {
      assert x * y == ax * ay;
    } else {
      assert x * y == -(ax * ay);
    }
  }

  /** The update loops of the pivot at (pr, pc) (ffge.c, shared by both
      kernels): for every row below the pivot, update the entries right of
      the pivot column from the old values, then clear the pivot-column
      entry. For the prime-field kernel on a buffer of residues, every
      product and difference it forms fits in a signed 64-bit integer. */
  method EliminateColumn(kernel: Kernel, m: array<int>, n: nat, pr: nat, pc: nat, dv: int, mrc: int)
    requires m.Length == n * n && pr < n && pc < n && dv != 0
    requires mrc == At(m[..], n, pr, pc)
    requires kernel == Modular ==> AllResidues(m[..])
    modifies m
    ensures m[..] == EliminateBelow(kernel, old(m[..]), n, pr, pc, dv)
  {
    ghost var s := m[..];
    if kernel == Modular {
      EliminateBelowNoOverflow(s, n, pr, pc);
    }
    EliminatedUpToEnds(kernel, s, n, pr, pc, dv);
    for i := pr + 1 to n
      invariant m[..] == EliminatedUpTo(kernel, s, n, pr, pc, dv, i, pc + 1)
    {
      EliminatedUpToRowStart(kernel, s, n, pr, pc, dv, i);
      var mic := m[Idx(n, i, pc)];
      for j := pc + 1 to n
        invariant m[..] == EliminatedUpTo(kernel, s, n, pr, pc, dv, i, j)
      {
        EliminatedUpToInner(kernel, s, n, pr, pc, dv, i, j);
        var mij, mpj := m[Idx(n, i, j)], m[Idx(n, pr, j)];
        assert kernel == Modular ==>
          IsInt64(mij * mrc) && IsInt64(mpj * mic) && IsInt64(mij * mrc - mpj * mic);
        m[Idx(n, i, j)] := Update(kernel, dv, mij, mrc, mpj, mic);
      }
      EliminatedUpToRow(kernel, s, n, pr, pc, dv, i);
      m[Idx(n, i, pc)] := 0;
    }
  }

  // ----- the column walk shared by ffge and ffge_prim -------------------------

  /** Result of a kernel: the final buffer and the pivot count it returns. */
  datatype Elimination = Elimination(mat: seq<int>, rank: nat)

  /** The kernels' outer loop from column `pc` on, with `pr` pivots found so
      far and running divisor `dv` (the previous pivot; the prime-field
      kernel does not use it). A column without a pivot leaves the count;
      a column with one runs the update loops and moves on with the pivot as
      the new divisor. The count rises at most once per column. */
  function Eliminate(kernel: Kernel, s: seq<int>, n: nat, pc: nat, pr: nat, dv: int): (e: Elimination)
    requires |s| == n * n && pr <= pc <= n && dv != 0
    ensures |e.mat| == n * n
    ensures pr <= e.rank <= pr + (n - pc)
    decreases n - pc
  {
    if pc == n then Elimination(s, pr)
    else
      var t := PivotMoved(s, n, pr, pc);
      var i := FirstNonzeroRow(s, n, pr, pc);
      if i == n then Eliminate(kernel, t, n, pc + 1, pr, dv)
      else
        // the pivot, which the search has moved into row `pr`
        var mrc := At(s, n, i, pc);
        Eliminate(kernel, EliminateBelow(kernel, t, n, pr, pc, dv), n, pc + 1, pr + 1, NextDivisor(kernel, dv, mrc))
  }

  /** The exact kernel divides the next step by the pivot just used; the
      prime-field kernel has no divisor and keeps the one it started with. */
  function NextDivisor(kernel: Kernel, dv: int, mrc: int): int {
    if kernel == Exact then mrc else dv
  }

  /** A column of the walk without a pivot leaves the buffer as the pivot
      search left it, with the same count and divisor. */
  lemma EliminateSkip(kernel: Kernel, s: seq<int>, n: nat, pc: nat, pr: nat, dv: int)
    requires |s| == n * n && pr <= pc < n && dv != 0 && FirstNonzeroRow(s, n, pr, pc) == n
    ensures Eliminate(kernel, s, n, pc, pr, dv) == Eliminate(kernel, PivotMoved(s, n, pr, pc), n, pc + 1, pr, dv)
  {
  }

  /** A column of the walk with a pivot runs the update loops on the buffer
      the pivot search left, counts the pivot and moves on with the next
      divisor. */
  lemma EliminatePivot(kernel: Kernel, s: seq<int>, n: nat, pc: nat, pr: nat, dv: int)
    requires |s| == n * n && pr <= pc < n && dv != 0 && FirstNonzeroRow(s, n, pr, pc) < n
    ensures var t := PivotMoved(s, n, pr, pc);
      pr < n && At(t, n, pr, pc) != 0 &&
      Eliminate(kernel, s, n, pc, pr, dv) ==
        Eliminate(kernel, EliminateBelow(kernel, t, n, pr, pc, dv), n, pc + 1, pr + 1, NextDivisor(kernel, dv, At(t, n, pr, pc)))
  {
    PivotLands(s, n, pr, pc);
  }

  /** One column of the walk as the kernels run it: the pivot search turns
      `s` into `t`; without a pivot the walk goes on from `t` with the same
      count and divisor, with one the update loops turn `t` into `u` and the
      walk goes on from `u` with the pivot counted and the next divisor. */
  lemma ColumnStep(kernel: Kernel, s: seq<int>, t: seq<int>, u: seq<int>, n: nat, pc: nat, pr: nat, dv: int,
                   pr': nat, dv': int)
    requires |s| == n * n && pr <= pc < n && dv != 0
    requires t == PivotMoved(s, n, pr, pc)
    requires FirstNonzeroRow(s, n, pr, pc) == n ==> u == t && pr' == pr && dv' == dv
    requires FirstNonzeroRow(s, n, pr, pc) < n ==>
      pr < n && u == EliminateBelow(kernel, t, n, pr, pc, dv) && pr' == pr + 1 &&
      dv' == NextDivisor(kernel, dv, At(t, n, pr, pc))
    ensures |u| == n * n && pr' <= pc + 1 && dv' != 0
    ensures Eliminate(kernel, s, n, pc, pr, dv) == Eliminate(kernel, u, n, pc + 1, pr', dv')
  {
    if FirstNonzeroRow(s, n, pr, pc) < n {
      EliminatePivot(kernel, s, n, pc, pr, dv);
    } else {
      EliminateSkip(kernel, s, n, pc, pr, dv);
    }
  }

  /** `ffge(m, n)` as the source computes it: returns the final buffer and rank. */
  function FfgeSpec(s: seq<int>, n: nat): (e: Elimination)
    requires |s| == n * n
    ensures e.rank <= n && |e.mat| == n * n
  {
    Eliminate(Exact, s, n, 0, 0, 1)
  }

  /** `ffge_prim(m, n)` as the source computes it. */
  function FfgePrimSpec(s: seq<int>, n: nat): (e: Elimination)
    requires |s| == n * n
    ensures e.rank <= n && |e.mat| == n * n
  {
    Eliminate(Modular, s, n, 0, 0, 1)
  }

  /** One pass of the outer loop of both kernels (ffge.c): search column
      `pc` for a pivot, and when there is one run the update loops with it
      and count it. Without a pivot the pass leaves the exchanged buffer,
      the row and the divisor as they were; with one it leaves the updated
      buffer, the next row and `m_rc` (or, for the prime-field kernel, the
      same divisor). The walk from the new state gives what the walk from
      the old one gives; the prime-field kernel stays in (-P, P). */
  method Column(kernel: Kernel, m: array<int>, n: nat, pc: nat, pr: nat, dv: int) returns (pr': nat, dv': int)
    requires m.Length == n * n && pr <= pc < n && dv != 0
    requires kernel == Modular ==> AllResidues(m[..])
    modifies m
    ensures pr' <= pc + 1 && dv' != 0
    ensures kernel == Modular ==> AllResidues(m[..]) && dv' == dv
    ensures var t := PivotMoved(old(m[..]), n, pr, pc);
      if FirstNonzeroRow(old(m[..]), n, pr, pc) == n then
        m[..] == t && pr' == pr && dv' == dv
      else
        pr < n && m[..] == EliminateBelow(kernel, t, n, pr, pc, dv) && pr' == pr + 1 && dv' == NextDivisor(kernel, dv, At(t, n, pr, pc))
    ensures Eliminate(kernel, old(m[..]), n, pc, pr, dv) == Eliminate(kernel, m[..], n, pc + 1, pr', dv')
  {
    ghost var s := m[..];
    PivotMovedResidues(s, n, pr, pc);
    var found := PivotFind(m, n, pr, pc);
    ghost var t := m[..];
    pr', dv' := pr, dv;
    if found >= 0 {
      IdxInRange(n, pr, pc);
      var mrc := m[Idx(n, pr, pc)];
      EliminateColumn(kernel, m, n, pr, pc, dv, mrc);
      EliminateBelowResidues(t, n, pr, pc, dv);
      pr', dv' := pr + 1, NextDivisor(kernel, dv, mrc);
    }
    ColumnStep(kernel, s, t, m[..], n, pc, pr, dv, pr', dv');
  }

  /** `ffge` (ffge.c): exact Bareiss elimination in place; returns the
      number of pivots found. The divisor is never zero. */
  method Ffge(m: array<int>, n: nat) returns (rank: nat)
    requires m.Length == n * n
    modifies m
    ensures rank == FfgeSpec(old(m[..]), n).rank && m[..] == FfgeSpec(old(m[..]), n).mat
    ensures rank <= n
  {
    var dv := 1;
    var pr: nat := 0;
    for pc := 0 to n
      invariant pr <= pc && dv != 0
      invariant Eliminate(Exact, m[..], n, pc, pr, dv) == FfgeSpec(old(m[..]), n)
    {
      pr, dv := Column(Exact, m, n, pc, pr, dv);
    }
    rank := pr;
  }

  /** `ffge_prim` (ffge.c): the same walk with every update reduced by C's
      `%` modulo FFGE_PRIM. Its entries are elements of Z_p written in
      (-P, P); they stay there, and EliminateColumn checks that no product
      overflows 64 bits. */
  method FfgePrim(m: array<int>, n: nat) returns (rank: nat)
    requires m.Length == n * n && AllResidues(m[..])
    modifies m
    ensures rank == FfgePrimSpec(old(m[..]), n).rank && m[..] == FfgePrimSpec(old(m[..]), n).mat
    ensures rank <= n && AllResidues(m[..])
  {
    var pr: nat := 0;
    for pc := 0 to n
      invariant pr <= pc && AllResidues(m[..])
      invariant Eliminate(Modular, m[..], n, pc, pr, 1) == FfgePrimSpec(old(m[..]), n)
    {
      var dv;
      pr, dv := Column(Modular, m, n, pc, pr, 1);
    }
    rank := pr;
  }

  /** The three-argument form of the header: status 1 when the rank is n and
      0 otherwise, with the rank stored through `rnk`. */
  method FfgeStatus(m: array<int>, n: nat) returns (status: int, rnk: nat)
    requires m.Length == n * n
    modifies m
    ensures rnk == FfgeSpec(old(m[..]), n).rank && m[..] == FfgeSpec(old(m[..]), n).mat
    ensures status == FullRankStatus(rnk, n)
  {
    rnk := Ffge(m, n);
    status := FullRankStatus(rnk, n);
  }

  method FfgePrimStatus(m: array<int>, n: nat) returns (status: int, rnk: nat)
    requires m.Length == n * n && AllResidues(m[..])
    modifies m
    ensures rnk == FfgePrimSpec(old(m[..]), n).rank && m[..] == FfgePrimSpec(old(m[..]), n).mat
    ensures status == FullRankStatus(rnk, n)
  {
    rnk := FfgePrim(m, n);
    status := FullRankStatus(rnk, n);
  }

  // ----- the prime-field kernel stays in (-P, P) ------------------------------

  lemma PivotMovedResidues(s: seq<int>, n: nat, pr: nat, pc: nat)
    requires |s| == n * n && pr <= n && (pr < n ==> pc < n)
    ensures AllResidues(s) ==> AllResidues(PivotMoved(s, n, pr, pc))
  {
    var t := PivotMoved(s, n, pr, pc);
    PivotMovedCells(s, n, pr, pc);
    AllResiduesCells(s, n);
    AllResiduesCells(t, n);
  }

  /** Every product and difference the prime-field update loops compute
      from a buffer of residues fits in a signed 64-bit integer. */
  lemma EliminateBelowNoOverflow(s: seq<int>, n: nat, pr: nat, pc: nat)
    requires |s| == n * n && pr < n && pc < n && AllResidues(s)
    ensures forall a, b :: pr < a < n && pc < b < n ==>
      var mij, mrc, mpj, mic := At(s, n, a, b), At(s, n, pr, pc), At(s, n, pr, b), At(s, n, a, pc);
      IsInt64(mij * mrc) && IsInt64(mpj * mic) && IsInt64(mij * mrc - mpj * mic)
  {
    AllResiduesCells(s, n);
    forall a, b | pr < a < n && pc < b < n
      ensures var mij, mrc, mpj, mic := At(s, n, a, b), At(s, n, pr, pc), At(s, n, pr, b), At(s, n, a, pc);
        IsInt64(mij * mrc) && IsInt64(mpj * mic) && IsInt64(mij * mrc - mpj * mic)
    {
      ModularUpdateInRange(At(s, n, a, b), At(s, n, pr, pc), At(s, n, pr, b), At(s, n, a, pc));
    }
  }

  lemma EliminateBelowResidues(s: seq<int>, n: nat, pr: nat, pc: nat, dv: int)
    requires |s| == n * n && pr < n && pc < n && dv != 0
    ensures AllResidues(s) ==> AllResidues(EliminateBelow(Modular, s, n, pr, pc, dv))
  {
    var t := EliminateBelow(Modular, s, n, pr, pc, dv);
    if AllResidues(s) {
      EliminateBelowCells(Modular, s, n, pr, pc, dv);
      AllResiduesCells(s, n);
      forall a, b | 0 <= a < n && 0 <= b < n
        ensures -Prim < At(t, n, a, b) < Prim
      {
        if pr < a && pc < b {
          CRemCongruent(At(s, n, a, b) * At(s, n, pr, pc) - At(s, n, pr, b) * At(s, n, a, pc), Prim);
        }
      }
      AllResiduesCells(t, n);
    }
  }

  /** Every entry the prime-field kernel leaves behind is in (-P, P) when
      every entry it was given is. */
  lemma {:induction false} EliminateResidues(s: seq<int>, n: nat, pc: nat, pr: nat, dv: int)
    requires |s| == n * n && pr <= pc <= n && dv != 0 && AllResidues(s)
    ensures AllResidues(Eliminate(Modular, s, n, pc, pr, dv).mat)
    decreases n - pc
  {
    if pc < n {
      var t := PivotMoved(s, n, pr, pc);
      PivotMovedResidues(s, n, pr, pc);
      if FirstNonzeroRow(s, n, pr, pc) == n {
        EliminateResidues(t, n, pc + 1, pr, dv);
      } else {
        EliminateBelowResidues(t, n, pr, pc, dv);
        EliminateResidues(EliminateBelow(Modular, t, n, pr, pc, dv), n, pc + 1, pr + 1, dv);
      }
    }
  }

  // ----- the final buffer is in row echelon form ------------------------------

  /** Columns 0 .. pc-1 are in row echelon form with the pivots `piv`: row t
      has its leading nonzero entry in column piv[t], the pivot columns
      increase, and every row from |piv| on is zero in those columns. */
  ghost predicate EchelonUpTo(s: seq<int>, n: nat, pc: nat, piv: seq<nat>)
    requires |s| == n * n
  {
    |piv| <= n && pc <= n &&
    (forall t :: 0 <= t < |piv| ==> piv[t] < pc) &&
    (forall t, u :: 0 <= t < u < |piv| ==> piv[t] < piv[u]) &&
    (forall t :: 0 <= t < |piv| ==> At(s, n, t, piv[t]) != 0) &&
    (forall t, j :: 0 <= t < |piv| && 0 <= j < piv[t] ==> At(s, n, t, j) == 0) &&
    (forall i, j :: |piv| <= i < n && 0 <= j < pc ==> At(s, n, i, j) == 0)
  }

  /** The whole buffer is in row echelon form with exactly r nonzero rows. */
  ghost predicate IsRowEchelon(s: seq<int>, n: nat, r: nat)
    requires |s| == n * n
  {
    exists piv: seq<nat> :: |piv| == r && EchelonUpTo(s, n, n, piv)
  }

  lemma EchelonNoPivot(s: seq<int>, n: nat, pc: nat, piv: seq<nat>)
    requires |s| == n * n && pc < n && EchelonUpTo(s, n, pc, piv)
    requires FirstNonzeroRow(s, n, |piv|, pc) == n
    ensures EchelonUpTo(PivotMoved(s, n, |piv|, pc), n, pc + 1, piv)
  {
    assert PivotMoved(s, n, |piv|, pc) == s;
    assert forall i :: |piv| <= i < n ==> At(s, n, i, pc) == 0;
  }

  lemma EchelonPivotStep(kernel: Kernel, s: seq<int>, n: nat, pc: nat, piv: seq<nat>, dv: int)
    requires |s| == n * n && pc < n && dv != 0 && EchelonUpTo(s, n, pc, piv)
    requires FirstNonzeroRow(s, n, |piv|, pc) < n
    ensures var pr := |piv|; var t := PivotMoved(s, n, pr, pc);
      pr < n && EchelonUpTo(EliminateBelow(kernel, t, n, pr, pc, dv), n, pc + 1, piv + [pc])
  {
    var pr := |piv|;
    var i := FirstNonzeroRow(s, n, pr, pc);
    var t := PivotMoved(s, n, pr, pc);
    var u := EliminateBelow(kernel, t, n, pr, pc, dv);
    var piv' := piv + [pc];
    PivotMovedCells(s, n, pr, pc);
    EliminateBelowCells(kernel, t, n, pr, pc, dv);
    // rows above the pivot row and columns left of the pivot are untouched
    assert forall a, b :: 0 <= a < pr && 0 <= b < n ==> At(u, n, a, b) == At(s, n, a, b);
    assert forall a, b :: 0 <= a < n && 0 <= b < pc ==> At(u, n, a, b) == At(s, n, a, b);
    assert At(u, n, pr, pc) == At(s, n, i, pc) != 0;
    forall t1, j | 0 <= t1 < |piv'| && 0 <= j < piv'[t1]
      ensures At(u, n, t1, j) == 0
    {
      if t1 < pr {
        assert At(u, n, t1, j) == At(s, n, t1, j);
      } else {
        assert At(u, n, pr, j) == At(s, n, pr, j);
      }
    }
    forall a, b | pr + 1 <= a < n && 0 <= b < pc + 1
      ensures At(u, n, a, b) == 0
    {
      if b < pc {
        assert At(u, n, a, b) == At(s, n, a, b);
      }
    }
    assert forall t1 :: 0 <= t1 < |piv'| ==> At(u, n, t1, piv'[t1]) != 0 by {
      forall t1 | 0 <= t1 < |piv'|
        ensures At(u, n, t1, piv'[t1]) != 0
      {
        if t1 < pr {
          assert At(u, n, t1, piv[t1]) == At(s, n, t1, piv[t1]);
        }
      }
    }
  }

  /** One column of the walk keeps the columns passed in row echelon form,
      with one more pivot when the column has one. */
  lemma EchelonColumn(kernel: Kernel, s: seq<int>, n: nat, pc: nat, piv: seq<nat>, dv: int)
    returns (u: seq<int>, piv': seq<nat>, dv': int)
    requires |s| == n * n && |piv| <= pc < n && dv != 0 && EchelonUpTo(s, n, pc, piv)
    ensures |u| == n * n && |piv'| <= pc + 1 && dv' != 0 && EchelonUpTo(u, n, pc + 1, piv')
    ensures Eliminate(kernel, s, n, pc, |piv|, dv) == Eliminate(kernel, u, n, pc + 1, |piv'|, dv')
  {
    var pr := |piv|;
    var t := PivotMoved(s, n, pr, pc);
    if FirstNonzeroRow(s, n, pr, pc) == n {
      u, piv', dv' := t, piv, dv;
      EchelonNoPivot(s, n, pc, piv);
    } else {
      PivotLands(s, n, pr, pc);
      u, piv', dv' := EliminateBelow(kernel, t, n, pr, pc, dv), piv + [pc], NextDivisor(kernel, dv, At(t, n, pr, pc));
      EchelonPivotStep(kernel, s, n, pc, piv, dv);
    }
    ColumnStep(kernel, s, t, u, n, pc, pr, dv, |piv'|, dv');
  }

  /** The walk keeps the columns it has passed in row echelon form, so the
      final buffer is in row echelon form with as many nonzero rows as the
      count it returns. */
  lemma {:induction false} EliminateEchelon(kernel: Kernel, s: seq<int>, n: nat, pc: nat, piv: seq<nat>, dv: int)
    requires |s| == n * n && |piv| <= pc <= n && dv != 0 && EchelonUpTo(s, n, pc, piv)
    ensures var e := Eliminate(kernel, s, n, pc, |piv|, dv); IsRowEchelon(e.mat, n, e.rank)
    decreases n - pc
  {
    if pc == n {
      assert Eliminate(kernel, s, n, pc, |piv|, dv) == Elimination(s, |piv|);
      assert EchelonUpTo(s, n, n, piv);
    } else {
      var u, piv', dv' := EchelonColumn(kernel, s, n, pc, piv, dv);
      EliminateEchelon(kernel, u, n, pc + 1, piv', dv');
    }
  }

  /** Both kernels leave the buffer in row echelon form whose number of
      nonzero rows is the returned count. */
  lemma KernelsEchelon(s: seq<int>, n: nat)
    requires |s| == n * n
    ensures IsRowEchelon(FfgeSpec(s, n).mat, n, FfgeSpec(s, n).rank)
    ensures IsRowEchelon(FfgePrimSpec(s, n).mat, n, FfgePrimSpec(s, n).rank)
  {
    assert EchelonUpTo(s, n, 0, []);
    EliminateEchelon(Exact, s, n, 0, [], 1);
    EliminateEchelon(Modular, s, n, 0, [], 1);
  }

  /** In a row echelon buffer, row t < r is nonzero (at its pivot) and every
      row from r on is zero: r counts the nonzero rows. */
  lemma EchelonRowsNonzero(s: seq<int>, n: nat, r: nat)
    requires |s| == n * n && IsRowEchelon(s, n, r)
    ensures r <= n
    ensures forall t :: 0 <= t < r ==> RowNonzero(s, n, t)
    ensures forall i :: r <= i < n ==> !RowNonzero(s, n, i)
  {
    var piv: seq<nat> :| |piv| == r && EchelonUpTo(s, n, n, piv);
    forall t | 0 <= t < r
      ensures RowNonzero(s, n, t)
    {
      assert At(s, n, t, piv[t]) != 0;
    }
  }

  /** Row i has a nonzero entry. */
  ghost predicate RowNonzero(s: seq<int>, n: nat, i: nat)
    requires |s| == n * n && i < n
  {
    exists j :: 0 <= j < n && At(s, n, i, j) != 0
  }

  // ----- the expectations of the test programs --------------------------------

  /** A 1-by-1 matrix has rank 1 exactly when its entry is nonzero. */
  lemma OneByOne(x: int)
    ensures FfgeSpec([x], 1).rank == (if x == 0 then 0 else 1)
    ensures FfgePrimSpec([x], 1).rank == (if x == 0 then 0 else 1)
  {
    assert At([x], 1, 0, 0) == x;
  }

  /** The 2-by-2 cases of the test programs: the zero matrix has rank 0,
      [[0, 1], [0, 0]] rank 1 (status 0) and [[0, 1], [1, 0]] rank 2
      (status 1), for both kernels. */
  lemma TwoByTwo()
    ensures FfgeSpec([0, 0, 0, 0], 2).rank == 0 && FfgePrimSpec([0, 0, 0, 0], 2).rank == 0
    ensures FfgeSpec([0, 1, 0, 0], 2).rank == 1 && FfgePrimSpec([0, 1, 0, 0], 2).rank == 1
    ensures FullRankStatus(FfgePrimSpec([0, 1, 0, 0], 2).rank, 2) == 0
    ensures FfgeSpec([0, 1, 1, 0], 2).rank == 2 && FfgePrimSpec([0, 1, 1, 0], 2).rank == 2
    ensures FullRankStatus(FfgePrimSpec([0, 1, 1, 0], 2).rank, 2) == 1
  {
  }
}
