/** Where entries live, as the public header lays them out: entry (i, j) of
    a row-major n-by-n matrix, and entry (i, j) of matrix k of a packed
    batch of FFGE_WIDTH matrices. */
module Layout {
  import opened CArith
  import opened Header

  /** Row-major offset of entry (i, j) of an n-by-n matrix, `i*n + j`
      (IdxFormula): row i starts after i whole rows. Written as a recursion
      so that the solver sees products of variables only where a lemma
      below asks for them. */
  function Idx(n: nat, i: nat, j: nat): nat {
    if i == 0 then j else Idx(n, i - 1, j) + n
  }

  lemma {:induction false} IdxFormula(n: nat, i: nat, j: nat)
    ensures Idx(n, i, j) == i * n + j
  {
    if i > 0 {
      IdxFormula(n, i - 1, j);
    }
  }

  lemma IdxInRange(n: nat, i: nat, j: nat)
    requires i < n && j < n
    ensures Idx(n, i, j) < n * n
  {
    IdxFormula(n, i, j);
    MulMonotone(i + 1, n, n);
    assert (i + 1) * n == i * n + n;
  }

  /** Row and column of an offset are recovered by Euclidean division. */
  lemma IdxDivMod(n: nat, i: nat, j: nat)
    requires j < n
    ensures Idx(n, i, j) / n == i && Idx(n, i, j) % n == j
  {
    IdxFormula(n, i, j);
    var p := Idx(n, i, j);
    var q, r := p / n, p % n;
    assert p == q * n + r && 0 <= r < n;
    assert (q - i) * n == j - r;
    MultipleBelow(q - i, n);
  }

  /** Distinct entries have distinct offsets. */
  lemma IdxInjective(n: nat, i: nat, j: nat, a: nat, b: nat)
    requires i < n && j < n && a < n && b < n
    ensures Idx(n, i, j) == Idx(n, a, b) <==> i == a && j == b
  {
    IdxDivMod(n, i, j);
    IdxDivMod(n, a, b);
  }

  /** Every offset of an n-by-n buffer is the offset of exactly one entry. */
  lemma IdxCoords(n: nat, p: nat)
    requires p < n * n
    ensures p / n < n && p % n < n && p == Idx(n, p / n, p % n)
  {
    assert n > 0;
    var q, r := p / n, p % n;
    assert p == q * n + r && 0 <= r < n;
    if q >= n {
      MulMonotone(n, q, n);
      assert false;
    }
    IdxFormula(n, q, r);
  }

  /** Packed offset of entry (i, j) of matrix k: `(i*n + j)*FFGE_WIDTH + k`. */
  function PackedIdx(n: nat, i: nat, j: nat, k: nat): nat {
    Idx(n, i, j) * Width + k
  }

  lemma PackedIdxInRange(n: nat, i: nat, j: nat, k: nat)
    requires i < n && j < n && k < Width
    ensures PackedIdx(n, i, j, k) < n * n * Width
  {
    IdxInRange(n, i, j);
  }

  /** Matrix k of the batch owns exactly the offsets congruent to k modulo
      the width, and the entry is recovered from the offset's quotient. */
  lemma PackedLane(n: nat, i: nat, j: nat, k: nat)
    requires j < n && k < Width
    ensures PackedIdx(n, i, j, k) % Width == k
    ensures PackedIdx(n, i, j, k) / Width == Idx(n, i, j)
  {
  }

  lemma PackedIdxInjective(n: nat, i: nat, j: nat, k: nat, a: nat, b: nat, c: nat)
    requires i < n && j < n && k < Width && a < n && b < n && c < Width
    ensures PackedIdx(n, i, j, k) == PackedIdx(n, a, b, c) <==> i == a && j == b && k == c
  {
    PackedLane(n, i, j, k);
    PackedLane(n, a, b, c);
    IdxInjective(n, i, j, a, b);
  }

  /** Every offset of a packed buffer holds one entry of one matrix. */
  lemma PackedCoords(n: nat, p: nat)
    requires p < n * n * Width
    ensures p / Width < n * n
    ensures var q := p / Width; p == PackedIdx(n, q / n, q % n, p % Width)
  {
    IdxCoords(n, p / Width);
  }
}
