/** Square matrices stored row-major in a flat buffer, seen through their
    entries. `At` reads entry (i, j); `Build` makes the buffer whose entries
    are given by a function of (i, j); the row and column exchanges and the
    modular row and column additions used by the kernels and the test-matrix
    generator are defined entry by entry. */
module Matrix {
  import opened CArith
  import opened Header
  import opened Layout

  function At(s: seq<int>, n: nat, i: nat, j: nat): int
    requires |s| == n * n && i < n && j < n
  {
    IdxInRange(n, i, j);
    s[Idx(n, i, j)]
  }

  /** The n-by-n buffer whose entry (i, j) is `f(i, j)`. */
  function Build(n: nat, f: (nat, nat) -> int): (s: seq<int>)
    ensures |s| == n * n
  {
    seq(n * n, p requires 0 <= p < n * n => IdxCoords(n, p); f(p / n, p % n))
  }

  lemma BuildCells(n: nat, f: (nat, nat) -> int)
    ensures forall i, j :: 0 <= i < n && 0 <= j < n ==> At(Build(n, f), n, i, j) == f(i, j)
  {
    forall i, j | 0 <= i < n && 0 <= j < n
      ensures At(Build(n, f), n, i, j) == f(i, j)
    {
      IdxInRange(n, i, j);
      IdxDivMod(n, i, j);
    }
  }

  /** Two buffers with the same entries are the same buffer. */
  lemma SameCells(s: seq<int>, t: seq<int>, n: nat)
    requires |s| == n * n && |t| == n * n
    requires forall i, j :: 0 <= i < n && 0 <= j < n ==> At(s, n, i, j) == At(t, n, i, j)
    ensures s == t
  {
    forall p | 0 <= p < n * n
      ensures s[p] == t[p]
    {
      IdxCoords(n, p);
      assert At(s, n, p / n, p % n) == At(t, n, p / n, p % n);
    }
  }

  /** Storing `v` at the offset of (i, j) changes entry (i, j) and no other. */
  lemma WriteCell(s: seq<int>, n: nat, i: nat, j: nat, v: int)
    requires |s| == n * n && i < n && j < n
    ensures Idx(n, i, j) < |s|
    ensures forall a, b :: 0 <= a < n && 0 <= b < n ==>
      At(s[Idx(n, i, j) := v], n, a, b) == if a == i && b == j then v else At(s, n, a, b)
  {
    IdxInRange(n, i, j);
    var s' := s[Idx(n, i, j) := v];
    assert |s'| == n * n;
    forall a, b | 0 <= a < n && 0 <= b < n
      ensures At(s', n, a, b) == if a == i && b == j then v else At(s, n, a, b)
    {
      IdxInjective(n, i, j, a, b);
      IdxInRange(n, a, b);
    }
  }

  /** Every entry lies strictly between -FFGE_PRIM and FFGE_PRIM, the range
      of the C remainder by FFGE_PRIM. */
  predicate AllResidues(s: seq<int>) {
    forall p :: 0 <= p < |s| ==> -Prim < s[p] < Prim
  }

  lemma AllResiduesCells(s: seq<int>, n: nat)
    requires |s| == n * n
    ensures AllResidues(s) <==> forall i, j :: 0 <= i < n && 0 <= j < n ==> -Prim < At(s, n, i, j) < Prim
  {
    if forall i, j :: 0 <= i < n && 0 <= j < n ==> -Prim < At(s, n, i, j) < Prim {
      forall p | 0 <= p < |s|
        ensures -Prim < s[p] < Prim
      {
        IdxCoords(n, p);
        assert s[p] == At(s, n, p / n, p % n);
      }
    }
    if AllResidues(s) {
      forall i, j | 0 <= i < n && 0 <= j < n
        ensures -Prim < At(s, n, i, j) < Prim
      {
        IdxInRange(n, i, j);
      }
    }
  }

  // ----- exchanging rows ------------------------------------------------------

  /** The row whose entry lands in (a, b) when rows r1 and r2 exchange their
      entries in columns c0 .. c1-1. */
  function RowSwapSource(a: nat, b: nat, r1: nat, r2: nat, c0: nat, c1: nat): nat {
    if c0 <= b < c1 && a == r1 then r2
    else if c0 <= b < c1 && a == r2 then r1
    else a
  }

  /** Entry (a, b) once rows r1 and r2 have exchanged their entries in
      columns c0 .. c1-1. */
  function SwapRowEntry(s: seq<int>, n: nat, r1: nat, r2: nat, c0: nat, c1: nat, a: nat, b: nat): int
    requires |s| == n * n && r1 < n && r2 < n
  {
    if a < n && b < n then At(s, n, RowSwapSource(a, b, r1, r2, c0, c1), b) else 0
  }

  /** Rows r1 and r2 with their entries in columns c0 .. c1-1 exchanged. */
  function SwapRowSegment(s: seq<int>, n: nat, r1: nat, r2: nat, c0: nat, c1: nat): (t: seq<int>)
    requires |s| == n * n && r1 < n && r2 < n
    ensures |t| == n * n
  {
    Build(n, (a: nat, b: nat) => SwapRowEntry(s, n, r1, r2, c0, c1, a, b))
  }

  lemma SwapRowSegmentCells(s: seq<int>, n: nat, r1: nat, r2: nat, c0: nat, c1: nat)
    requires |s| == n * n && r1 < n && r2 < n
    ensures forall a, b :: 0 <= a < n && 0 <= b < n ==>
      At(SwapRowSegment(s, n, r1, r2, c0, c1), n, a, b) == At(s, n, RowSwapSource(a, b, r1, r2, c0, c1), b)
  {
    BuildCells(n, (a: nat, b: nat) => SwapRowEntry(s, n, r1, r2, c0, c1, a, b));
  }

  /** One entry of SwapRowSegment. */
  lemma SwapRowSegmentAt(s: seq<int>, n: nat, r1: nat, r2: nat, c0: nat, c1: nat, a: nat, b: nat)
    requires |s| == n * n && r1 < n && r2 < n && a < n && b < n
    ensures At(SwapRowSegment(s, n, r1, r2, c0, c1), n, a, b) == At(s, n, RowSwapSource(a, b, r1, r2, c0, c1), b)
  {
    SwapRowSegmentCells(s, n, r1, r2, c0, c1);
  }

  /** Exchanging a row with itself, or over an empty column range, changes
      nothing. */
  lemma SwapRowSegmentNoop(s: seq<int>, n: nat, r1: nat, r2: nat, c0: nat, c1: nat)
    requires |s| == n * n && r1 < n && r2 < n
    requires r1 == r2 || c1 <= c0
    ensures SwapRowSegment(s, n, r1, r2, c0, c1) == s
  {
    SwapRowSegmentCells(s, n, r1, r2, c0, c1);
    SameCells(SwapRowSegment(s, n, r1, r2, c0, c1), s, n);
  }

  /** One more column of an exchange: the two stores the loop body performs. */
  lemma SwapRowSegmentStep(s: seq<int>, n: nat, r1: nat, r2: nat, c0: nat, j: nat)
    requires |s| == n * n && r1 < n && r2 < n && r1 != r2 && c0 <= j < n
    ensures var t := SwapRowSegment(s, n, r1, r2, c0, j);
      Idx(n, r1, j) < n * n && Idx(n, r2, j) < n * n &&
      t[Idx(n, r1, j)] == At(s, n, r1, j) && t[Idx(n, r2, j)] == At(s, n, r2, j) &&
      t[Idx(n, r1, j) := At(s, n, r2, j)][Idx(n, r2, j) := At(s, n, r1, j)]
        == SwapRowSegment(s, n, r1, r2, c0, j + 1)
  {
    var t := SwapRowSegment(s, n, r1, r2, c0, j);
    var u := SwapRowSegment(s, n, r1, r2, c0, j + 1);
    IdxInRange(n, r1, j);
    IdxInRange(n, r2, j);
    var t1 := t[Idx(n, r1, j) := At(s, n, r2, j)];
    var t2 := t1[Idx(n, r2, j) := At(s, n, r1, j)];
    assert |t1| == n * n && |t2| == n * n;
    WriteCell(t, n, r1, j, At(s, n, r2, j));
    WriteCell(t1, n, r2, j, At(s, n, r1, j));
    SwapRowSegmentCells(s, n, r1, r2, c0, j);
    SwapRowSegmentCells(s, n, r1, r2, c0, j + 1);
    forall a, b | 0 <= a < n && 0 <= b < n
      ensures At(t2, n, a, b) == At(u, n, a, b)
    {
      assert At(t2, n, a, b) == if a == r2 && b == j then At(s, n, r1, j) else At(t1, n, a, b);
      assert At(t1, n, a, b) == if a == r1 && b == j then At(s, n, r2, j) else At(t, n, a, b);
      assert At(t, n, a, b) == At(s, n, RowSwapSource(a, b, r1, r2, c0, j), b);
      assert At(u, n, a, b) == At(s, n, RowSwapSource(a, b, r1, r2, c0, j + 1), b);
    }
    SameCells(t2, u, n);
    assert At(t, n, r1, j) == At(s, n, r1, j) && At(t, n, r2, j) == At(s, n, r2, j);
  }

  /** Exchanging the same rows twice restores the buffer. */
  lemma SwapRowSegmentTwice(s: seq<int>, n: nat, r1: nat, r2: nat, c0: nat, c1: nat)
    requires |s| == n * n && r1 < n && r2 < n
    ensures SwapRowSegment(SwapRowSegment(s, n, r1, r2, c0, c1), n, r1, r2, c0, c1) == s
  {
    var t := SwapRowSegment(s, n, r1, r2, c0, c1);
    var u := SwapRowSegment(t, n, r1, r2, c0, c1);
    SwapRowSegmentCells(s, n, r1, r2, c0, c1);
    SwapRowSegmentCells(t, n, r1, r2, c0, c1);
    forall a, b | 0 <= a < n && 0 <= b < n
      ensures At(u, n, a, b) == At(s, n, a, b)
    {
      assert RowSwapSource(RowSwapSource(a, b, r1, r2, c0, c1), b, r1, r2, c0, c1) == a;
    }
    SameCells(u, s, n);
  }

  /** The row exchange loop of `ffge_pivot_find` and of the generator: rows
      r1 and r2 trade their entries in columns c0 .. n-1, one column at a
      time. */
  method SwapRows(m: array<int>, n: nat, r1: nat, r2: nat, c0: nat)
    requires m.Length == n * n && r1 < n && r2 < n && r1 != r2 && c0 <= n
    modifies m
    ensures m[..] == SwapRowSegment(old(m[..]), n, r1, r2, c0, n)
  {
    ghost var s := m[..];
    SwapRowSegmentNoop(s, n, r1, r2, c0, c0);
    for j := c0 to n
      invariant m[..] == SwapRowSegment(s, n, r1, r2, c0, j)
    {
      SwapRowSegmentStep(s, n, r1, r2, c0, j);
      ghost var t := m[..];
      var zz := m[Idx(n, r1, j)];
      m[Idx(n, r1, j)] := m[Idx(n, r2, j)];
      m[Idx(n, r2, j)] := zz;
      assert m[..] == t[Idx(n, r1, j) := At(s, n, r2, j)][Idx(n, r2, j) := At(s, n, r1, j)];
    }
  }

  // ----- exchanging columns ---------------------------------------------------

  /** The column whose entry lands in (a, b) when columns c1 and c2 exchange
      their entries in rows r0 .. r1-1. */
  function ColSwapSource(a: nat, b: nat, c1: nat, c2: nat, r0: nat, r1: nat): nat {
    if r0 <= a < r1 && b == c1 then c2
    else if r0 <= a < r1 && b == c2 then c1
    else b
  }

  /** Entry (a, b) once columns c1 and c2 have exchanged their entries in
      rows r0 .. r1-1. */
  function SwapColEntry(s: seq<int>, n: nat, c1: nat, c2: nat, r0: nat, r1: nat, a: nat, b: nat): int
    requires |s| == n * n && c1 < n && c2 < n
  {
    if a < n && b < n then At(s, n, a, ColSwapSource(a, b, c1, c2, r0, r1)) else 0
  }

  /** Columns c1 and c2 with their entries in rows r0 .. r1-1 exchanged. */
  function SwapColSegment(s: seq<int>, n: nat, c1: nat, c2: nat, r0: nat, r1: nat): (t: seq<int>)
    requires |s| == n * n && c1 < n && c2 < n
    ensures |t| == n * n
  {
    Build(n, (a: nat, b: nat) => SwapColEntry(s, n, c1, c2, r0, r1, a, b))
  }

  lemma SwapColSegmentCells(s: seq<int>, n: nat, c1: nat, c2: nat, r0: nat, r1: nat)
    requires |s| == n * n && c1 < n && c2 < n
    ensures forall a, b :: 0 <= a < n && 0 <= b < n ==>
      At(SwapColSegment(s, n, c1, c2, r0, r1), n, a, b) == At(s, n, a, ColSwapSource(a, b, c1, c2, r0, r1))
  {
    BuildCells(n, (a: nat, b: nat) => SwapColEntry(s, n, c1, c2, r0, r1, a, b));
  }

  lemma SwapColSegmentNoop(s: seq<int>, n: nat, c1: nat, c2: nat, r0: nat, r1: nat)
    requires |s| == n * n && c1 < n && c2 < n
    requires c1 == c2 || r1 <= r0
    ensures SwapColSegment(s, n, c1, c2, r0, r1) == s
  {
    SwapColSegmentCells(s, n, c1, c2, r0, r1);
    SameCells(SwapColSegment(s, n, c1, c2, r0, r1), s, n);
  }

  lemma SwapColSegmentStep(s: seq<int>, n: nat, c1: nat, c2: nat, r0: nat, i: nat)
    requires |s| == n * n && c1 < n && c2 < n && c1 != c2 && r0 <= i < n
    ensures var t := SwapColSegment(s, n, c1, c2, r0, i);
      Idx(n, i, c1) < n * n && Idx(n, i, c2) < n * n &&
      t[Idx(n, i, c1)] == At(s, n, i, c1) && t[Idx(n, i, c2)] == At(s, n, i, c2) &&
      t[Idx(n, i, c1) := At(s, n, i, c2)][Idx(n, i, c2) := At(s, n, i, c1)]
        == SwapColSegment(s, n, c1, c2, r0, i + 1)
  {
    var t := SwapColSegment(s, n, c1, c2, r0, i);
    var u := SwapColSegment(s, n, c1, c2, r0, i + 1);
    IdxInRange(n, i, c1);
    IdxInRange(n, i, c2);
    var t1 := t[Idx(n, i, c1) := At(s, n, i, c2)];
    var t2 := t1[Idx(n, i, c2) := At(s, n, i, c1)];
    assert |t1| == n * n && |t2| == n * n;
    WriteCell(t, n, i, c1, At(s, n, i, c2));
    WriteCell(t1, n, i, c2, At(s, n, i, c1));
    SwapColSegmentCells(s, n, c1, c2, r0, i);
    SwapColSegmentCells(s, n, c1, c2, r0, i + 1);
    forall a, b | 0 <= a < n && 0 <= b < n
      ensures At(t2, n, a, b) == At(u, n, a, b)
    {
      assert At(t2, n, a, b) == if a == i && b == c2 then At(s, n, i, c1) else At(t1, n, a, b);
      assert At(t1, n, a, b) == if a == i && b == c1 then At(s, n, i, c2) else At(t, n, a, b);
      assert At(t, n, a, b) == At(s, n, a, ColSwapSource(a, b, c1, c2, r0, i));
      assert At(u, n, a, b) == At(s, n, a, ColSwapSource(a, b, c1, c2, r0, i + 1));
    }
    SameCells(t2, u, n);
    assert At(t, n, i, c1) == At(s, n, i, c1) && At(t, n, i, c2) == At(s, n, i, c2);
  }

  /** Exchanging the same columns twice restores the buffer. */
  lemma SwapColSegmentTwice(s: seq<int>, n: nat, c1: nat, c2: nat, r0: nat, r1: nat)
    requires |s| == n * n && c1 < n && c2 < n
    ensures SwapColSegment(SwapColSegment(s, n, c1, c2, r0, r1), n, c1, c2, r0, r1) == s
  {
    var t := SwapColSegment(s, n, c1, c2, r0, r1);
    var u := SwapColSegment(t, n, c1, c2, r0, r1);
    SwapColSegmentCells(s, n, c1, c2, r0, r1);
    SwapColSegmentCells(t, n, c1, c2, r0, r1);
    forall a, b | 0 <= a < n && 0 <= b < n
      ensures At(u, n, a, b) == At(s, n, a, b)
    {
      assert ColSwapSource(a, ColSwapSource(a, b, c1, c2, r0, r1), c1, c2, r0, r1) == b;
    }
    SameCells(u, s, n);
  }

  /** The column exchange loop of the generator: columns c1 and c2 trade
      their entries in rows r0 .. n-1, one row at a time. */
  method SwapCols(m: array<int>, n: nat, c1: nat, c2: nat, r0: nat)
    requires m.Length == n * n && c1 < n && c2 < n && c1 != c2 && r0 <= n
    modifies m
    ensures m[..] == SwapColSegment(old(m[..]), n, c1, c2, r0, n)
  {
    ghost var s := m[..];
    SwapColSegmentNoop(s, n, c1, c2, r0, r0);
    for i := r0 to n
      invariant m[..] == SwapColSegment(s, n, c1, c2, r0, i)
    {
      SwapColSegmentStep(s, n, c1, c2, r0, i);
      ghost var t := m[..];
      var zz := m[Idx(n, i, c1)];
      m[Idx(n, i, c1)] := m[Idx(n, i, c2)];
      m[Idx(n, i, c2)] := zz;
      assert m[..] == t[Idx(n, i, c1) := At(s, n, i, c2)][Idx(n, i, c2) := At(s, n, i, c1)];
    }
  }

  // ----- adding rows and columns modulo FFGE_PRIM -----------------------------

  /** `(x + sign*y) % FFGE_PRIM` with C's remainder. */
  function AddMod(x: int, sign: int, y: int): int {
    CRem(x + sign * y, Prim)
  }

  /** An addition of two residues times a sign fits in 64 bits, and its C
      remainder is again a residue congruent to the sum. */
  lemma AddModInRange(x: int, sign: int, y: int)
    requires -Prim < x < Prim && -Prim < y < Prim && (sign == -1 || sign == 1)
    ensures IsInt64(sign * y) && IsInt64(x + sign * y)
    ensures -Prim < AddMod(x, sign, y) < Prim
    ensures AddMod(x, sign, y) % Prim == (x + sign * y) % Prim
  {
    CRemCongruent(x + sign * y, Prim);
  }

  /** Entry (a, b) once row r1 has had `sign` times row r2 added, reduced,
      in columns 0 .. c1-1. */
  function AddRowEntry(s: seq<int>, n: nat, r1: nat, r2: nat, sign: int, c1: nat, a: nat, b: nat): int
    requires |s| == n * n && r1 < n && r2 < n
  {
    if a < n && b < n then
      (if a == r1 && b < c1 then AddMod(At(s, n, a, b), sign, At(s, n, r2, b)) else At(s, n, a, b))
    else 0
  }

  /** Row r1 plus `sign` times row r2, reduced, in columns 0 .. c1-1. */
  function AddRowPrefix(s: seq<int>, n: nat, r1: nat, r2: nat, sign: int, c1: nat): (t: seq<int>)
    requires |s| == n * n && r1 < n && r2 < n
    ensures |t| == n * n
  {
    Build(n, (a: nat, b: nat) => AddRowEntry(s, n, r1, r2, sign, c1, a, b))
  }

  lemma AddRowPrefixCells(s: seq<int>, n: nat, r1: nat, r2: nat, sign: int, c1: nat)
    requires |s| == n * n && r1 < n && r2 < n
    ensures forall a, b :: 0 <= a < n && 0 <= b < n ==>
      At(AddRowPrefix(s, n, r1, r2, sign, c1), n, a, b) ==
        if a == r1 && b < c1 then AddMod(At(s, n, a, b), sign, At(s, n, r2, b)) else At(s, n, a, b)
  {
    BuildCells(n, (a: nat, b: nat) => AddRowEntry(s, n, r1, r2, sign, c1, a, b));
  }

  /** Before its first column the row addition has changed nothing. */
  lemma AddRowPrefixEmpty(s: seq<int>, n: nat, r1: nat, r2: nat, sign: int)
    requires |s| == n * n && r1 < n && r2 < n
    ensures AddRowPrefix(s, n, r1, r2, sign, 0) == s
  {
    AddRowPrefixCells(s, n, r1, r2, sign, 0);
    SameCells(AddRowPrefix(s, n, r1, r2, sign, 0), s, n);
  }

  lemma AddRowPrefixStep(s: seq<int>, n: nat, r1: nat, r2: nat, sign: int, j: nat)
    requires |s| == n * n && r1 < n && r2 < n && r1 != r2 && j < n
    ensures var t := AddRowPrefix(s, n, r1, r2, sign, j);
      Idx(n, r1, j) < n * n &&
      t[Idx(n, r1, j) := AddMod(At(t, n, r1, j), sign, At(t, n, r2, j))] == AddRowPrefix(s, n, r1, r2, sign, j + 1)
  {
    var t := AddRowPrefix(s, n, r1, r2, sign, j);
    var u := AddRowPrefix(s, n, r1, r2, sign, j + 1);
    IdxInRange(n, r1, j);
    var v := AddMod(At(t, n, r1, j), sign, At(t, n, r2, j));
    var t1 := t[Idx(n, r1, j) := v];
    assert |t1| == n * n;
    WriteCell(t, n, r1, j, v);
    AddRowPrefixCells(s, n, r1, r2, sign, j);
    AddRowPrefixCells(s, n, r1, r2, sign, j + 1);
    forall a, b | 0 <= a < n && 0 <= b < n
      ensures At(t1, n, a, b) == At(u, n, a, b)
    {
      assert At(t1, n, a, b) == if a == r1 && b == j then v else At(t, n, a, b);
      assert At(t, n, r1, j) == At(s, n, r1, j) && At(t, n, r2, j) == At(s, n, r2, j);
    }
    SameCells(t1, u, n);
  }

  /** Entry (a, b) once column c1 has had `sign` times column c2 added,
      reduced, in rows 0 .. r1-1. */
  function AddColEntry(s: seq<int>, n: nat, c1: nat, c2: nat, sign: int, r1: nat, a: nat, b: nat): int
    requires |s| == n * n && c1 < n && c2 < n
  {
    if a < n && b < n then
      (if b == c1 && a < r1 then AddMod(At(s, n, a, b), sign, At(s, n, a, c2)) else At(s, n, a, b))
    else 0
  }

  /** Column c1 plus `sign` times column c2, reduced, in rows 0 .. r1-1. */
  function AddColPrefix(s: seq<int>, n: nat, c1: nat, c2: nat, sign: int, r1: nat): (t: seq<int>)
    requires |s| == n * n && c1 < n && c2 < n
    ensures |t| == n * n
  {
    Build(n, (a: nat, b: nat) => AddColEntry(s, n, c1, c2, sign, r1, a, b))
  }

  lemma AddColPrefixCells(s: seq<int>, n: nat, c1: nat, c2: nat, sign: int, r1: nat)
    requires |s| == n * n && c1 < n && c2 < n
    ensures forall a, b :: 0 <= a < n && 0 <= b < n ==>
      At(AddColPrefix(s, n, c1, c2, sign, r1), n, a, b) ==
        if b == c1 && a < r1 then AddMod(At(s, n, a, b), sign, At(s, n, a, c2)) else At(s, n, a, b)
  {
    BuildCells(n, (a: nat, b: nat) => AddColEntry(s, n, c1, c2, sign, r1, a, b));
  }

  /** Before its first row the column addition has changed nothing. */
  lemma AddColPrefixEmpty(s: seq<int>, n: nat, c1: nat, c2: nat, sign: int)
    requires |s| == n * n && c1 < n && c2 < n
    ensures AddColPrefix(s, n, c1, c2, sign, 0) == s
  {
    AddColPrefixCells(s, n, c1, c2, sign, 0);
    SameCells(AddColPrefix(s, n, c1, c2, sign, 0), s, n);
  }

  lemma AddColPrefixStep(s: seq<int>, n: nat, c1: nat, c2: nat, sign: int, i: nat)
    requires |s| == n * n && c1 < n && c2 < n && c1 != c2 && i < n
    ensures var t := AddColPrefix(s, n, c1, c2, sign, i);
      Idx(n, i, c1) < n * n &&
      t[Idx(n, i, c1) := AddMod(At(t, n, i, c1), sign, At(t, n, i, c2))] == AddColPrefix(s, n, c1, c2, sign, i + 1)
  {
    var t := AddColPrefix(s, n, c1, c2, sign, i);
    var u := AddColPrefix(s, n, c1, c2, sign, i + 1);
    IdxInRange(n, i, c1);
    var v := AddMod(At(t, n, i, c1), sign, At(t, n, i, c2));
    var t1 := t[Idx(n, i, c1) := v];
    assert |t1| == n * n;
    WriteCell(t, n, i, c1, v);
    AddColPrefixCells(s, n, c1, c2, sign, i);
    AddColPrefixCells(s, n, c1, c2, sign, i + 1);
    forall a, b | 0 <= a < n && 0 <= b < n
      ensures At(t1, n, a, b) == At(u, n, a, b)
    {
      assert At(t1, n, a, b) == if a == i && b == c1 then v else At(t, n, a, b);
      assert At(t, n, i, c1) == At(s, n, i, c1) && At(t, n, i, c2) == At(s, n, i, c2);
    }
    SameCells(t1, u, n);
  }

  /** The two entries the row addition reads in column j have their values
      from before the loop, so they are residues when the input is. */
  lemma AddRowOperands(s: seq<int>, n: nat, r1: nat, r2: nat, sign: int, j: nat)
    requires |s| == n * n && r1 < n && r2 < n && r1 != r2 && j < n
    ensures var t := AddRowPrefix(s, n, r1, r2, sign, j);
      At(t, n, r1, j) == At(s, n, r1, j) && At(t, n, r2, j) == At(s, n, r2, j) &&
      (AllResidues(s) ==> -Prim < At(t, n, r1, j) < Prim && -Prim < At(t, n, r2, j) < Prim)
  {
    AddRowPrefixCells(s, n, r1, r2, sign, j);
    AllResiduesCells(s, n);
  }

  /** The row addition loop of the generator: row r1 plus `sign` times row
      r2, each entry reduced by C's `%` modulo FFGE_PRIM. The generator
      calls it on residues with a sign of ±1, so every sum it forms fits in
      a signed 64-bit integer. */
  method AddRow(m: array<int>, n: nat, r1: nat, r2: nat, sign: int)
    requires m.Length == n * n && r1 < n && r2 < n && r1 != r2
    requires AllResidues(m[..]) && (sign == -1 || sign == 1)
    modifies m
    ensures m[..] == AddRowPrefix(old(m[..]), n, r1, r2, sign, n)
  {
    ghost var s := m[..];
    AddRowPrefixEmpty(s, n, r1, r2, sign);
    for j := 0 to n
      invariant m[..] == AddRowPrefix(s, n, r1, r2, sign, j)
    {
      AddRowPrefixStep(s, n, r1, r2, sign, j);
      IdxInRange(n, r2, j);
      var x, y := m[Idx(n, r1, j)], m[Idx(n, r2, j)];
      assert x == At(m[..], n, r1, j) && y == At(m[..], n, r2, j);
      AddRowOperands(s, n, r1, r2, sign, j);
      AddModInRange(x, sign, y);
      assert IsInt64(x + sign * y);
      m[Idx(n, r1, j)] := CRem(x + sign * y, Prim);
    }
  }

  /** The two entries the column addition reads in row i have their values
      from before the loop, so they are residues when the input is. */
  lemma AddColOperands(s: seq<int>, n: nat, c1: nat, c2: nat, sign: int, i: nat)
    requires |s| == n * n && c1 < n && c2 < n && c1 != c2 && i < n
    ensures var t := AddColPrefix(s, n, c1, c2, sign, i);
      At(t, n, i, c1) == At(s, n, i, c1) && At(t, n, i, c2) == At(s, n, i, c2) &&
      (AllResidues(s) ==> -Prim < At(t, n, i, c1) < Prim && -Prim < At(t, n, i, c2) < Prim)
  {
    AddColPrefixCells(s, n, c1, c2, sign, i);
    AllResiduesCells(s, n);
  }

  /** The column addition loop of the generator: column c1 plus `sign` times
      column c2, each entry reduced by C's `%` modulo FFGE_PRIM. The
      generator calls it on residues with a sign of ±1, so every sum it
      forms fits in a signed 64-bit integer. */
  method AddCol(m: array<int>, n: nat, c1: nat, c2: nat, sign: int)
    requires m.Length == n * n && c1 < n && c2 < n && c1 != c2
    requires AllResidues(m[..]) && (sign == -1 || sign == 1)
    modifies m
    ensures m[..] == AddColPrefix(old(m[..]), n, c1, c2, sign, n)
  {
    ghost var s := m[..];
    AddColPrefixEmpty(s, n, c1, c2, sign);
    for i := 0 to n
      invariant m[..] == AddColPrefix(s, n, c1, c2, sign, i)
    {
      AddColPrefixStep(s, n, c1, c2, sign, i);
      IdxInRange(n, i, c2);
      var x, y := m[Idx(n, i, c1)], m[Idx(n, i, c2)];
      assert x == At(m[..], n, i, c1) && y == At(m[..], n, i, c2);
      AddColOperands(s, n, c1, c2, sign, i);
      AddModInRange(x, sign, y);
      assert IsInt64(x + sign * y);
      m[Idx(n, i, c1)] := CRem(x + sign * y, Prim);
    }
  }
}
