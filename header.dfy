/** The constants and contracts of the public header that are not about
    where entries live: the modulus of the prime-field kernels, the batch
    width of the packed kernel, how the full-rank flags of a batch are read
    and cleared, and the status value of the scalar kernels. */
module Header {

  /** FFGE_PRIM, the Mersenne prime 2^31 - 1. */
  const Prim: int := 0x7FFF_FFFF

  /** FFGE_WIDTH, the number of matrices interleaved in a packed batch. */
  const Width: nat := 8

  /** A `uint64_t` word by its bits, bit k (of value 2^k) at index k. */
  type Word = w: seq<bool> | |w| == 64 witness seq(64, i => false)

  /** A 32-bit `int` by its two's complement bits, bit 31 the sign. */
  type Int32 = w: seq<bool> | |w| == 32 witness seq(32, i => false)

  /** Bitwise `&` of two words. */
  function And(x: Word, y: Word): (z: Word)
    ensures forall i :: 0 <= i < 64 ==> (z[i] <==> x[i] && y[i])
  {
    seq(64, i requires 0 <= i < 64 => x[i] && y[i])
  }

  /** Full-rank flag k of a flag word: bit k, `(fl >> k) & 1`. */
  predicate Flag(fl: Word, k: nat)
    requires k < 64
  {
    fl[k]
  }

  /** The bits of the lanes of one batch, the word 0xff. */
  const LaneBits: Word := seq(64, i => i < Width)

  /** A batch of FFGE_WIDTH matrices has one flag per matrix, and all of them
      fit in the low byte, i.e. in a `uint8_t`: masking a flag word with
      LaneBits keeps the lane flags and clears every other bit. */
  lemma LaneFlagsFitByte(fl: Word)
    ensures forall k :: 0 <= k < 64 ==> (Flag(And(fl, LaneBits), k) <==> k < Width && Flag(fl, k))
  {
  }

  /** `1 << k` as the 32-bit `int` the C expression has (k < 31). */
  function Shl1(k: nat): (w: Int32)
    requires k < 31
  {
    seq(32, i => i == k)
  }

  /** `~x` on a 32-bit `int`. */
  function Complement(x: Int32): (w: Int32) {
    seq(32, i requires 0 <= i < 32 => !x[i])
  }

  /** A 32-bit `int` converted to `uint64_t` is reduced modulo 2^64
      (section 6.3.1.3 of ISO/IEC 9899:2011); on two's complement bits this
      copies the sign bit into the upper half. */
  function SignExtend(x: Int32): (w: Word) {
    x + seq(32, i => x[31])
  }

  /** The mask of `fl &= ~(1 << k)`: the `int` `~(1 << k)` converted to the
      type of `fl`. */
  function ClearMask(k: nat): (mask: Word)
    requires k < Width
  {
    SignExtend(Complement(Shl1(k)))
  }

  /** The converted mask has exactly bit k clear: `~(1 << k)` is negative
      for every lane, so the sign extension fills the upper half with ones. */
  lemma ClearMaskBits(k: nat)
    requires k < Width
    ensures forall i :: 0 <= i < 64 ==> (ClearMask(k)[i] <==> i != k)
  {
    var c := Complement(Shl1(k));
    assert c[31];
    forall i | 0 <= i < 64
      ensures ClearMask(k)[i] <==> i != k
    {
      if i >= 32 {
        assert ClearMask(k)[i] == c[31];
      } else {
        assert ClearMask(k)[i] == c[i];
      }
    }
  }

  /** `fl &= ~(1 << k)` clears flag k and keeps every other bit. */
  lemma ClearFlag(fl: Word, k: nat)
    requires k < Width
    ensures forall b :: 0 <= b < 64 ==> (Flag(And(fl, ClearMask(k)), b) <==> Flag(fl, b) && b != k)
  {
    ClearMaskBits(k);
  }

  /** Status of the scalar kernels: 1 when the matrix has full rank,
      0 otherwise. This is the header's definition of the status; what the
      rank means is proved about the kernels in the echelon lemmas of `Ffge`. */
  function FullRankStatus(rank: nat, n: nat): (st: int)
    ensures st == 0 || st == 1
    ensures st == 1 <==> rank == n
  {
    if rank == n then 1 else 0
  }
}
