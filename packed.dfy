/** The pivot search of the packed kernel, `ffge_pivot_find_i8`: FFGE_WIDTH
    matrices share one buffer, entry (i, j) of matrix k at offset
    `(i*n + j)*FFGE_WIDTH + k`, and one call searches column `pv` of every
    matrix in turn. A matrix whose column has no pivot at or below row `pv`
    is singular and loses its full-rank flag; in the others the pivot row
    is exchanged into row `pv` exactly as the scalar search does it. */
module PackedPivot {
  import opened CArith
  import opened Header
  import opened Layout
  import opened Matrix
  import opened Ffge

  /** Matrix k of a packed batch, as a row-major n-by-n buffer. This is the
      packed layout of the header written as a definition; what it implies
      is proved in `LaneAt`, `LanesDetermine` and `LaneWrite`. */
  function Lane(s: seq<int>, n: nat, k: nat): (t: seq<int>)
    requires |s| == n * n * Width && k < Width
    ensures |t| == n * n
    ensures forall p :: 0 <= p < n * n ==> t[p] == s[p * Width + k]
  {
    seq(n * n, p requires 0 <= p < n * n => s[p * Width + k])
  }

  /** Entry (i, j) of lane k is the one stored at the packed offset. */
  lemma LaneAt(s: seq<int>, n: nat, k: nat, i: nat, j: nat)
    requires |s| == n * n * Width && k < Width && i < n && j < n
    ensures PackedIdx(n, i, j, k) < |s|
    ensures At(Lane(s, n, k), n, i, j) == s[PackedIdx(n, i, j, k)]
  {
    IdxInRange(n, i, j);
  }

  /** A batch is determined by its lanes. */
  lemma LanesDetermine(s: seq<int>, t: seq<int>, n: nat)
    requires |s| == n * n * Width && |t| == n * n * Width
    requires forall k :: 0 <= k < Width ==> Lane(s, n, k) == Lane(t, n, k)
    ensures s == t
  {
    forall p | 0 <= p < |s|
      ensures s[p] == t[p]
    {
      var q, k := p / Width, p % Width;
      assert p == q * Width + k && q < n * n;
      assert Lane(s, n, k)[q] == Lane(t, n, k)[q];
    }
  }

  /** A store into entry (i, j) of lane k changes that entry of that lane
      and nothing else. */
  lemma LaneWrite(s: seq<int>, n: nat, i: nat, j: nat, k: nat, v: int)
    requires |s| == n * n * Width && i < n && j < n && k < Width
    ensures PackedIdx(n, i, j, k) < |s| && Idx(n, i, j) < n * n
    ensures forall l :: 0 <= l < Width ==>
      Lane(s[PackedIdx(n, i, j, k) := v], n, l) ==
        if l == k then Lane(s, n, k)[Idx(n, i, j) := v] else Lane(s, n, l)
  {
    IdxInRange(n, i, j);
    var s' := s[PackedIdx(n, i, j, k) := v];
    forall l | 0 <= l < Width
      ensures Lane(s', n, l) == if l == k then Lane(s, n, k)[Idx(n, i, j) := v] else Lane(s, n, l)
    {
      var q := Idx(n, i, j);
      forall p | 0 <= p < n * n
        ensures Lane(s', n, l)[p] == if l == k then Lane(s, n, k)[q := v][p] else Lane(s, n, l)[p]
      {
        assert p * Width + l == q * Width + k <==> p == q && l == k;
      }
    }
  }

  /** Matrix k has no pivot in column `pv` at or below row `pv`. */
  predicate LaneSingular(s: seq<int>, n: nat, pv: nat, k: nat)
    requires |s| == n * n * Width && pv <= n && k < Width
  {
    FirstNonzeroRow(Lane(s, n, k), n, pv, pv) == n
  }

  /** Which matrices of the batch have no pivot in column `pv`: entry k is
      set exactly when the scan of matrix k's column `pv` from row `pv` down
      finds only zeros. */
  function Singular(s: seq<int>, n: nat, pv: nat): (sg: seq<bool>)
    requires |s| == n * n * Width && pv <= n
    ensures |sg| == Width
    ensures forall k :: 0 <= k < Width ==> sg[k] == LaneSingular(s, n, pv, k)
    ensures forall k :: 0 <= k < Width ==>
      (sg[k] <==> forall i :: pv <= i < n ==> At(Lane(s, n, k), n, i, pv) == 0)
  {
    seq(Width, k requires 0 <= k < Width => LaneSingular(s, n, pv, k))
  }

  /** The flag word after lanes 0 .. k-1 have been searched, given which
      lanes are singular. */
  function FlagsAfter(fl: Word, singular: seq<bool>, k: nat): Word
    requires |singular| == Width && k <= Width
  {
    if k == 0 then fl
    else
      var f := FlagsAfter(fl, singular, k - 1);
      if singular[k - 1] then And(f, ClearMask(k - 1)) else f
  }

  /** Bit b is set after k lanes have been searched exactly when it was set
      before and b is not a searched lane found singular. */
  lemma {:induction false} FlagsAfterBits(fl: Word, singular: seq<bool>, k: nat)
    requires |singular| == Width && k <= Width
    ensures forall b :: 0 <= b < 64 ==>
      (Flag(FlagsAfter(fl, singular, k), b) <==> Flag(fl, b) && !(b < k && singular[b]))
  {
    if k > 0 {
      FlagsAfterBits(fl, singular, k - 1);
      ClearFlag(FlagsAfter(fl, singular, k - 1), k - 1);
    }
  }

  /** The flags `ffge_pivot_find_i8` returns: the flag of every matrix whose
      column has no pivot is cleared, the flag of every other matrix is kept,
      and every bit of `fl` above FFGE_WIDTH is returned unchanged. */
  lemma ReturnedFlags(fl: Word, singular: seq<bool>)
    requires |singular| == Width
    ensures forall k :: 0 <= k < Width ==>
      (Flag(FlagsAfter(fl, singular, Width), k) <==> Flag(fl, k) && !singular[k])
    ensures forall b :: Width <= b < 64 ==>
      (Flag(FlagsAfter(fl, singular, Width), b) <==> Flag(fl, b))
  {
    FlagsAfterBits(fl, singular, Width);
  }

  /** The lanes of a batch whose matrix k has had rows r1 and r2 exchanged
      in columns c .. j-1. */
  predicate LanesSwapped(s: seq<int>, t: seq<int>, n: nat, k: nat, r1: nat, r2: nat, c: nat, j: nat)
    requires |s| == n * n * Width && |t| == n * n * Width && k < Width && r1 < n && r2 < n
  {
    forall l :: 0 <= l < Width ==>
      Lane(t, n, l) == if l == k then SwapRowSegment(Lane(s, n, k), n, r1, r2, c, j) else Lane(s, n, l)
  }

  /** Exchanging the two entries of column j extends the exchange by one
      column. */
  lemma LanesSwappedStep(s: seq<int>, t: seq<int>, n: nat, k: nat, r1: nat, r2: nat, c: nat, j: nat)
    requires |s| == n * n * Width && |t| == n * n * Width && k < Width
    requires r1 < n && r2 < n && r1 != r2 && c <= j < n
    requires LanesSwapped(s, t, n, k, r1, r2, c, j)
    ensures PackedIdx(n, r1, j, k) < |t| && PackedIdx(n, r2, j, k) < |t|
    ensures LanesSwapped(s, t[PackedIdx(n, r1, j, k) := t[PackedIdx(n, r2, j, k)]]
      [PackedIdx(n, r2, j, k) := t[PackedIdx(n, r1, j, k)]], n, k, r1, r2, c, j + 1)
  {
    var lane := Lane(s, n, k);
    SwapRowSegmentStep(lane, n, r1, r2, c, j);
    LaneAt(t, n, k, r1, j);
    LaneAt(t, n, k, r2, j);
    var p1, p2 := PackedIdx(n, r1, j, k), PackedIdx(n, r2, j, k);
    var t1 := t[p1 := t[p2]];
    LaneWrite(t, n, r1, j, k, t[p2]);
    LaneWrite(t1, n, r2, j, k, t[p1]);
  }

  /** The row exchange of `ffge_pivot_find_i8`: rows r1 and r2 of matrix k
      trade their entries in columns c .. n-1, one column at a time, and
      the other matrices of the batch are left alone. */
  method SwapLaneRows(m: array<int>, n: nat, k: nat, r1: nat, r2: nat, c: nat)
    requires m.Length == n * n * Width && k < Width && r1 < n && r2 < n && r1 != r2 && c <= n
    modifies m
    ensures LanesSwapped(old(m[..]), m[..], n, k, r1, r2, c, n)
  {
    ghost var before := m[..];
    SwapRowSegmentNoop(Lane(before, n, k), n, r1, r2, c, c);
    for j := c to n
      invariant LanesSwapped(before, m[..], n, k, r1, r2, c, j)
    {
      LanesSwappedStep(before, m[..], n, k, r1, r2, c, j);
      var zz := m[PackedIdx(n, r1, j, k)];
      m[PackedIdx(n, r1, j, k)] := m[PackedIdx(n, r2, j, k)];
      m[PackedIdx(n, r2, j, k)] := zz;
    }
  }

  /** The batch after the pivot search has visited lanes 0 .. k-1. */
  predicate LanesMoved(s: seq<int>, t: seq<int>, n: nat, pv: nat, k: nat)
    requires |s| == n * n * Width && |t| == n * n * Width && pv <= n
  {
    forall l :: 0 <= l < Width ==>
      Lane(t, n, l) == if l < k then PivotMoved(Lane(s, n, l), n, pv, pv) else Lane(s, n, l)
  }

  /** Batch `u` is batch `t` after the pivot search of lane k alone. */
  predicate LaneMoved(t: seq<int>, u: seq<int>, n: nat, pv: nat, k: nat)
    requires |t| == n * n * Width && |u| == n * n * Width && pv <= n && k < Width
  {
    forall l :: 0 <= l < Width ==>
      Lane(u, n, l) == if l == k then PivotMoved(Lane(t, n, k), n, pv, pv) else Lane(t, n, l)
  }

  /** Visiting lane k after lanes 0 .. k-1 extends the search by one lane. */
  lemma LanesMovedStep(s: seq<int>, t: seq<int>, u: seq<int>, n: nat, pv: nat, k: nat)
    requires |s| == n * n * Width && |t| == n * n * Width && |u| == n * n * Width
    requires pv <= n && k < Width && LanesMoved(s, t, n, pv, k) && LaneMoved(t, u, n, pv, k)
    ensures LanesMoved(s, u, n, pv, k + 1)
  {
    assert Lane(t, n, k) == Lane(s, n, k);
  }

  /** The body of the lane loop of `ffge_pivot_find_i8` for lane k: scan
      column `pv` of matrix k from row `pv` down; report it singular when
      there is no nonzero entry, otherwise exchange the first nonzero row
      into row `pv` in columns pv .. n-1 of that matrix only. */
  method SearchLane(m: array<int>, n: nat, pv: nat, k: nat) returns (singular: bool)
    requires m.Length == n * n * Width && pv <= n && k < Width
    modifies m
    ensures singular == LaneSingular(old(m[..]), n, pv, k)
    ensures LaneMoved(old(m[..]), m[..], n, pv, k)
  {
    ghost var before := m[..];
    ghost var lane := Lane(before, n, k);
    var i := pv;
    while i < n
      invariant pv <= i <= n && m[..] == before
      invariant FirstNonzeroRow(lane, n, i, pv) == FirstNonzeroRow(lane, n, pv, pv)
      decreases n - i
    {
      LaneAt(before, n, k, i, pv);
      if m[PackedIdx(n, i, pv, k)] != 0 {
        break;
      }
      i := i + 1;
    }
    assert i == FirstNonzeroRow(lane, n, pv, pv);
    singular := i == n;
    if i > pv && i < n {
      SwapLaneRows(m, n, k, pv, i, pv);
      assert LanesSwapped(before, m[..], n, k, pv, i, pv, n);
    }
  }

  /** `ffge_pivot_find_i8` (ffge_prim_i8_helpers.c): for each lane k in
      turn, search column `pv` of matrix k and clear flag k when the matrix
      has no pivot there; the matrices with a pivot have it moved into row
      `pv` as the scalar search does it. */
  method PivotFindPacked(m: array<int>, n: nat, pv: nat, fl: Word) returns (r: Word)
    requires m.Length == n * n * Width && pv <= n
    modifies m
    ensures r == FlagsAfter(fl, Singular(old(m[..]), n, pv), Width)
    ensures forall k :: 0 <= k < Width ==>
      Lane(m[..], n, k) == PivotMoved(Lane(old(m[..]), n, k), n, pv, pv)
  {
    ghost var s := m[..];
    r := fl;
    for k := 0 to Width
      invariant r == FlagsAfter(fl, Singular(s, n, pv), k)
      invariant LanesMoved(s, m[..], n, pv, k)
    {
      ghost var before := m[..];
      assert Lane(before, n, k) == Lane(s, n, k);
      var singular := SearchLane(m, n, pv, k);
      if singular {
        r := And(r, ClearMask(k));
      }
      LanesMovedStep(s, before, m[..], n, pv, k);
    }
  }

  /** What the search leaves in each lane: a lane whose flag survives has
      its first nonzero entry of column `pv` at (pv, pv), and a lane found
      singular is left as it was. */
  lemma LaneOutcome(s: seq<int>, n: nat, pv: nat, fl: Word)
    requires |s| == n * n * Width && pv <= n
    ensures forall k :: 0 <= k < Width && Flag(FlagsAfter(fl, Singular(s, n, pv), Width), k) ==>
      pv < n && At(PivotMoved(Lane(s, n, k), n, pv, pv), n, pv, pv) != 0
    ensures forall k :: 0 <= k < Width && LaneSingular(s, n, pv, k) ==>
      PivotMoved(Lane(s, n, k), n, pv, pv) == Lane(s, n, k)
  {
    ReturnedFlags(fl, Singular(s, n, pv));
    forall k | 0 <= k < Width
      ensures Flag(FlagsAfter(fl, Singular(s, n, pv), Width), k) ==>
        pv < n && At(PivotMoved(Lane(s, n, k), n, pv, pv), n, pv, pv) != 0
    {
      PivotLands(Lane(s, n, k), n, pv, pv);
    }
  }

  /** A batch of 1-by-1 matrices is singular exactly in its zero lanes. */
  lemma UnitSingular(s: seq<int>)
    requires |s| == Width
    ensures Singular(s, 1, 0) == seq(Width, k requires 0 <= k < Width => s[k] == 0)
  {
    forall k | 0 <= k < Width
      ensures Singular(s, 1, 0)[k] == (s[k] == 0)
    {
      LaneAt(s, 1, k, 0, 0);
      assert Lane(s, 1, k)[0] == s[k];
    }
  }

  /** The full-rank flags of the 1-by-1 unit cases of the packed test
      program: a batch of 1-by-1 matrices goes through a single pivot search
      at column 0 starting from the flags 0xff; every entry 1 gives 0xff,
      lane 3 zero gives 0xf7, lanes 3 and 6 zero give 0xb7. */
  lemma UnitFlags()
    ensures FlagsAfter(LaneBits, Singular([1, 1, 1, 1, 1, 1, 1, 1], 1, 0), Width) == LaneBits
    ensures FlagsAfter(LaneBits, Singular([1, 1, 1, 0, 1, 1, 1, 1], 1, 0), Width) ==
      seq(64, i => i < Width && i != 3)
    ensures FlagsAfter(LaneBits, Singular([1, 1, 1, 0, 1, 1, 0, 1], 1, 0), Width) ==
      seq(64, i => i < Width && i != 3 && i != 6)
  {
    UnitBatch([1, 1, 1, 1, 1, 1, 1, 1], LaneBits);
    UnitBatch([1, 1, 1, 0, 1, 1, 1, 1], seq(64, i => i < Width && i != 3));
    UnitBatch([1, 1, 1, 0, 1, 1, 0, 1], seq(64, i => i < Width && i != 3 && i != 6));
  }

  /** One unit case: starting from 0xff, exactly the lanes with a nonzero
      entry keep their flag. */
  lemma UnitBatch(s: seq<int>, expected: Word)
    requires |s| == Width
    requires forall i :: 0 <= i < 64 ==> (expected[i] <==> i < Width && s[i] != 0)
    ensures FlagsAfter(LaneBits, Singular(s, 1, 0), Width) == expected
  {
    UnitSingular(s);
    var r := FlagsAfter(LaneBits, Singular(s, 1, 0), Width);
    FlagsAfterBits(LaneBits, Singular(s, 1, 0), Width);
    assert forall i :: 0 <= i < 64 ==> r[i] == expected[i] by {
      forall i | 0 <= i < 64
        ensures r[i] == expected[i]
      {
        assert Flag(r, i) <==> Flag(LaneBits, i) && !(i < Width && Singular(s, 1, 0)[i]);
      }
    }
  }
}
