/** The test-matrix generator `ffge_mat_genrand_prim`: start from the
    matrix with ones on the first `rnk` diagonal entries and zeros
    elsewhere, then run `rd` rounds, each of which exchanges two rows,
    exchanges two columns, adds plus or minus one row to another and plus
    or minus one column to another, reducing every sum by C's `%` modulo
    FFGE_PRIM. Each round takes ten draws from the random generator: eight
    row and column indices and two signs. The generator is seen only
    through the stream of 64-bit values it returns. */
module GenRand {
  import opened CArith
  import opened Header
  import opened Layout
  import opened Matrix

  /** The random generator as the generator function uses it: a fixed
      stream of 64-bit draws and the position of the next one. */
  class Rng {
    const draws: nat -> Uint64
    var pos: nat

    /** A generator about to return the first value of `draws`. */
    constructor (draws: nat -> Uint64)
      ensures this.draws == draws && pos == 0
    {
      this.draws := draws;
      pos := 0;
    }

    /** One call of `xoshiro256ss_next`: the next value of the stream. */
    method Next() returns (x: Uint64)
      modifies this
      ensures x == draws(old(pos)) && pos == old(pos) + 1
    {
      x := draws(pos);
      pos := pos + 1;
    }
  }

  // ----- the starting matrix --------------------------------------------------

  function IdentityEntry(rnk: nat, a: nat, b: nat): int {
    if a == b && a < rnk then 1 else 0
  }

  /** Ones on the first `rnk` diagonal entries, zeros elsewhere. */
  function Identity(n: nat, rnk: nat): (s: seq<int>)
    ensures |s| == n * n
  {
    Build(n, (a: nat, b: nat) => IdentityEntry(rnk, a, b))
  }

  lemma IdentityCells(n: nat, rnk: nat)
    ensures forall a, b :: 0 <= a < n && 0 <= b < n ==>
      (At(Identity(n, rnk), n, a, b) == 1 <==> a == b && a < rnk) &&
      (At(Identity(n, rnk), n, a, b) == 0 <==> !(a == b && a < rnk))
  {
    BuildCells(n, (a: nat, b: nat) => IdentityEntry(rnk, a, b));
  }

  // ----- one round ------------------------------------------------------------

  /** The sign drawn from `d`: `(d % 2) * 2 - 1` is computed in 64-bit
      unsigned arithmetic, where 0 * 2 - 1 wraps to 2^64 - 1, and stored in
      a 32-bit `int`, which keeps the low 32 bits as a two's-complement
      value (the implementation-defined conversion of section 6.3.1.3 of
      ISO/IEC 9899:2011, as the usual compilers define it). */
  function SignOf(d: Uint64): (sg: int)
    ensures sg == -1 || sg == 1
    ensures sg == 1 <==> d % 2 == 1
  {
    var u := ((d % 2) * 2 - 1) % Uint64Limit;
    var low := u % 0x1_0000_0000;
    if low < 0x8000_0000 then low else low - 0x1_0000_0000
  }

  /** What one round draws: the eight indices `rc` (rows to exchange,
      columns to exchange, row to add to and from, column to add to and
      from) and the two signs `ss`. */
  datatype Round = Round(rc: seq<nat>, ss: seq<int>)

  predicate ValidRound(r: Round, n: nat) {
    |r.rc| == 8 && |r.ss| == 2 &&
    (forall i :: 0 <= i < 8 ==> r.rc[i] < n) &&
    (forall i :: 0 <= i < 2 ==> r.ss[i] == -1 || r.ss[i] == 1)
  }

  /** The round drawn from the ten values of the stream starting at `pos`:
      the first eight reduced modulo n, the last two made signs. */
  function RoundAt(draws: nat -> Uint64, pos: nat, n: nat): (r: Round)
    requires n > 0
    ensures ValidRound(r, n)
    ensures forall i :: 0 <= i < 8 ==> r.rc[i] == draws(pos + i) % n
    ensures forall i :: 0 <= i < 2 ==> (r.ss[i] == 1 <==> draws(pos + 8 + i) % 2 == 1)
  {
    Round([draws(pos) % n, draws(pos + 1) % n, draws(pos + 2) % n, draws(pos + 3) % n,
           draws(pos + 4) % n, draws(pos + 5) % n, draws(pos + 6) % n, draws(pos + 7) % n],
          [SignOf(draws(pos + 8)), SignOf(draws(pos + 9))])
  }

  /** The buffer after a round: each of the four operations is skipped when
      its two indices are equal. */
  function ApplyRound(s: seq<int>, n: nat, r: Round): (t: seq<int>)
    requires |s| == n * n && ValidRound(r, n)
    ensures |t| == n * n
  {
    var rc := r.rc;
    var s1 := if rc[0] != rc[1] then SwapRowSegment(s, n, rc[0], rc[1], 0, n) else s;
    var s2 := if rc[2] != rc[3] then SwapColSegment(s1, n, rc[2], rc[3], 0, n) else s1;
    var s3 := if rc[4] != rc[5] then AddRowPrefix(s2, n, rc[4], rc[5], r.ss[0], n) else s2;
    if rc[6] != rc[7] then AddColPrefix(s3, n, rc[6], rc[7], r.ss[1], n) else s3
  }

  /** The buffer after `k` rounds drawn from the stream starting at `pos`. */
  function Rounds(s: seq<int>, n: nat, draws: nat -> Uint64, pos: nat, k: nat): (t: seq<int>)
    requires |s| == n * n && (k > 0 ==> n > 0)
    ensures |t| == n * n
    decreases k
  {
    if k == 0 then s
    else Rounds(ApplyRound(s, n, RoundAt(draws, pos, n)), n, draws, pos + 10, k - 1)
  }

  /** What `ffge_mat_genrand_prim(m, n, rnk, rd, rng)` leaves in `m` when the
      generator's next value is draw number `pos`. */
  function Generated(n: nat, rnk: nat, rd: nat, draws: nat -> Uint64, pos: nat): (t: seq<int>)
    requires rd > 0 ==> n > 0
    ensures |t| == n * n
  {
    Rounds(Identity(n, rnk), n, draws, pos, rd)
  }

  // ----- every entry stays in (-P, P) -----------------------------------------

  /** The starting matrix holds only 0 and 1. */
  lemma IdentityResidues(n: nat, rnk: nat)
    ensures AllResidues(Identity(n, rnk))
  {
    IdentityCells(n, rnk);
    AllResiduesCells(Identity(n, rnk), n);
  }

  lemma SwapRowResidues(s: seq<int>, n: nat, r1: nat, r2: nat)
    requires |s| == n * n && r1 < n && r2 < n && AllResidues(s)
    ensures AllResidues(SwapRowSegment(s, n, r1, r2, 0, n))
  {
    SwapRowSegmentCells(s, n, r1, r2, 0, n);
    AllResiduesCells(s, n);
    AllResiduesCells(SwapRowSegment(s, n, r1, r2, 0, n), n);
  }

  lemma SwapColResidues(s: seq<int>, n: nat, c1: nat, c2: nat)
    requires |s| == n * n && c1 < n && c2 < n && AllResidues(s)
    ensures AllResidues(SwapColSegment(s, n, c1, c2, 0, n))
  {
    SwapColSegmentCells(s, n, c1, c2, 0, n);
    AllResiduesCells(s, n);
    AllResiduesCells(SwapColSegment(s, n, c1, c2, 0, n), n);
  }

  lemma AddRowResidues(s: seq<int>, n: nat, r1: nat, r2: nat, sign: int)
    requires |s| == n * n && r1 < n && r2 < n && AllResidues(s)
    ensures AllResidues(AddRowPrefix(s, n, r1, r2, sign, n))
  {
    var t := AddRowPrefix(s, n, r1, r2, sign, n);
    AddRowPrefixCells(s, n, r1, r2, sign, n);
    AllResiduesCells(s, n);
    forall a, b | 0 <= a < n && 0 <= b < n
      ensures -Prim < At(t, n, a, b) < Prim
    {
      CRemCongruent(At(s, n, a, b) + sign * At(s, n, r2, b), Prim);
    }
    AllResiduesCells(t, n);
  }

  lemma AddColResidues(s: seq<int>, n: nat, c1: nat, c2: nat, sign: int)
    requires |s| == n * n && c1 < n && c2 < n && AllResidues(s)
    ensures AllResidues(AddColPrefix(s, n, c1, c2, sign, n))
  {
    var t := AddColPrefix(s, n, c1, c2, sign, n);
    AddColPrefixCells(s, n, c1, c2, sign, n);
    AllResiduesCells(s, n);
    forall a, b | 0 <= a < n && 0 <= b < n
      ensures -Prim < At(t, n, a, b) < Prim
    {
      CRemCongruent(At(s, n, a, b) + sign * At(s, n, a, c2), Prim);
    }
    AllResiduesCells(t, n);
  }

  /** A round keeps every entry in (-P, P). */
  lemma RoundResidues(s: seq<int>, n: nat, r: Round)
    requires |s| == n * n && ValidRound(r, n) && AllResidues(s)
    ensures AllResidues(ApplyRound(s, n, r))
  {
    var rc := r.rc;
    var s1 := if rc[0] != rc[1] then SwapRowSegment(s, n, rc[0], rc[1], 0, n) else s;
    SwapRowResidues(s, n, rc[0], rc[1]);
    var s2 := if rc[2] != rc[3] then SwapColSegment(s1, n, rc[2], rc[3], 0, n) else s1;
    SwapColResidues(s1, n, rc[2], rc[3]);
    var s3 := if rc[4] != rc[5] then AddRowPrefix(s2, n, rc[4], rc[5], r.ss[0], n) else s2;
    AddRowResidues(s2, n, rc[4], rc[5], r.ss[0]);
    AddColResidues(s3, n, rc[6], rc[7], r.ss[1]);
  }

  lemma {:induction false} RoundsResidues(s: seq<int>, n: nat, draws: nat -> Uint64, pos: nat, k: nat)
    requires |s| == n * n && (k > 0 ==> n > 0) && AllResidues(s)
    ensures AllResidues(Rounds(s, n, draws, pos, k))
    decreases k
  {
    if k > 0 {
      var r := RoundAt(draws, pos, n);
      RoundResidues(s, n, r);
      RoundsResidues(ApplyRound(s, n, r), n, draws, pos + 10, k - 1);
    }
  }

  /** Every generated matrix has its entries in (-P, P), the input range of
      `ffge_prim`, whatever the draws. */
  lemma GeneratedResidues(n: nat, rnk: nat, rd: nat, draws: nat -> Uint64, pos: nat)
    requires rd > 0 ==> n > 0
    ensures AllResidues(Generated(n, rnk, rd, draws, pos))
  {
    IdentityCells(n, rnk);
    AllResiduesCells(Identity(n, rnk), n);
    RoundsResidues(Identity(n, rnk), n, draws, pos, rd);
  }

  // ----- the generator --------------------------------------------------------

  /** The first loop of a round: eight draws, each reduced modulo n. */
  method DrawIndices(n: nat, rng: Rng) returns (rc: seq<nat>)
    requires n > 0
    modifies rng
    ensures rng.pos == old(rng.pos) + 8 && |rc| == 8
    ensures forall t :: 0 <= t < 8 ==> rc[t] == rng.draws(old(rng.pos) + t) % n
  {
    ghost var p0 := rng.pos;
    rc := [];
    for i := 0 to 8
      invariant rng.pos == p0 + i && |rc| == i
      invariant forall t :: 0 <= t < i ==> rc[t] == rng.draws(p0 + t) % n
    {
      var d := rng.Next();
      rc := rc + [d % n];
    }
  }

  /** The second loop of a round: two draws made signs. */
  method DrawSigns(rng: Rng) returns (ss: seq<int>)
    modifies rng
    ensures rng.pos == old(rng.pos) + 2
    ensures ss == [SignOf(rng.draws(old(rng.pos))), SignOf(rng.draws(old(rng.pos) + 1))]
  {
    ghost var p0 := rng.pos;
    ss := [];
    for i := 0 to 2
      invariant rng.pos == p0 + i && |ss| == i
      invariant forall t :: 0 <= t < i ==> ss[t] == SignOf(rng.draws(p0 + t))
    {
      var d := rng.Next();
      ss := ss + [SignOf(d)];
    }
  }

  /** The ten draws of one round: eight indices reduced modulo n, then two
      signs. */
  method DrawRound(n: nat, rng: Rng) returns (r: Round)
    requires n > 0
    modifies rng
    ensures rng.pos == old(rng.pos) + 10
    ensures r == RoundAt(rng.draws, old(rng.pos), n)
  {
    ghost var p0 := rng.pos;
    var rc := DrawIndices(n, rng);
    var ss := DrawSigns(rng);
    r := Round(rc, ss);
    assert rc == RoundAt(rng.draws, p0, n).rc;
  }

  /** The four operations of a round, each skipped when its two indices are
      equal. Every entry stays in (-P, P) from step to step, so the
      additions form only 64-bit sums. */
  method PlayRound(m: array<int>, n: nat, r: Round)
    requires m.Length == n * n && ValidRound(r, n) && AllResidues(m[..])
    modifies m
    ensures m[..] == ApplyRound(old(m[..]), n, r)
  {
    // exchange rows
    var r1, r2 := r.rc[0], r.rc[1];
    if r1 != r2 {
      SwapRowResidues(m[..], n, r1, r2);
      SwapRows(m, n, r1, r2, 0);
    }
    // exchange columns
    var c1, c2 := r.rc[2], r.rc[3];
    if c1 != c2 {
      SwapColResidues(m[..], n, c1, c2);
      SwapCols(m, n, c1, c2, 0);
    }
    // add rows
    r1, r2 := r.rc[4], r.rc[5];
    if r1 != r2 {
      AddRowResidues(m[..], n, r1, r2, r.ss[0]);
      AddRow(m, n, r1, r2, r.ss[0]);
    }
    // add columns
    c1, c2 := r.rc[6], r.rc[7];
    if c1 != c2 {
      AddCol(m, n, c1, c2, r.ss[1]);
    }
  }

  /** One pass of the round loop: the buffer becomes the old one with the
      round drawn at the old position applied, so the rounds left after it
      are the rounds that were left before it, less the one it has run. */
  method NextRound(m: array<int>, n: nat, rng: Rng, k: nat)
    requires m.Length == n * n && n > 0 && AllResidues(m[..])
    modifies m, rng
    ensures rng.pos == old(rng.pos) + 10
    ensures AllResidues(m[..])
    ensures m[..] == ApplyRound(old(m[..]), n, RoundAt(rng.draws, old(rng.pos), n))
    ensures Rounds(old(m[..]), n, rng.draws, old(rng.pos), k + 1) == Rounds(m[..], n, rng.draws, rng.pos, k)
  {
    var r := DrawRound(n, rng);
    RoundResidues(m[..], n, r);
    PlayRound(m, n, r);
  }

  /** The initial loops of `ffge_mat_genrand_prim`: entry (i, j) becomes 1
      when i == j < rnk and 0 otherwise, row by row. */
  method FillIdentity(m: array<int>, n: nat, rnk: nat)
    requires m.Length == n * n
    modifies m
    ensures m[..] == Identity(n, rnk)
  {
    ghost var id := Identity(n, rnk);
    IdentityCells(n, rnk);
    for i := 0 to n
      invariant forall p :: 0 <= p < Idx(n, i, 0) <= n * n ==> m[p] == id[p]
      invariant Idx(n, i, 0) <= n * n
    {
      IdxFormula(n, i, 0);
      for j := 0 to n
        invariant Idx(n, i, j) <= n * n
        invariant forall p :: 0 <= p < Idx(n, i, j) ==> m[p] == id[p]
      {
        IdxFormula(n, i, j);
        IdxFormula(n, i, j + 1);
        IdxInRange(n, i, j);
        assert id[Idx(n, i, j)] == At(id, n, i, j);
        m[Idx(n, i, j)] := if i == j && i < rnk then 1 else 0;
      }
      IdxFormula(n, i, n);
      IdxFormula(n, i + 1, 0);
    }
    IdxFormula(n, n, 0);
    assert m[..] == id;
  }

  /** `ffge_mat_genrand_prim` (utils.c): fill the buffer with the partial
      identity of rank `rnk`, then run `rd` rounds. The indices are reduced
      modulo n, so a round needs n > 0. */
  method GenRandPrim(m: array<int>, n: nat, rnk: nat, rd: nat, rng: Rng)
    requires m.Length == n * n && (rd > 0 ==> n > 0)
    modifies m, rng
    ensures rng.pos == old(rng.pos) + 10 * rd
    ensures m[..] == Generated(n, rnk, rd, rng.draws, old(rng.pos))
    ensures AllResidues(m[..])
  {
    FillIdentity(m, n, rnk);
    IdentityResidues(n, rnk);
    ghost var p0 := rng.pos;
    var k: nat := rd;
    while k > 0
      invariant k <= rd && rng.pos == p0 + 10 * (rd - k)
      invariant AllResidues(m[..])
      invariant Rounds(m[..], n, rng.draws, rng.pos, k) == Generated(n, rnk, rd, rng.draws, p0)
    {
      k := k - 1;
      NextRound(m, n, rng, k);
    }
  }
}
