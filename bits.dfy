/** The 32-bit words of the allocation bitmap, seen bit by bit: bit `i` of a
    word is the flag at index `i`. Each C operator the memory manager applies
    to a bitmap word is defined by what it does to every bit. */
module Bits {

  const WORD_BITS: nat := 32

  /** A `uint32_t` of the bitmap: bit `i` is `w[i]`. */
  type Word = w: seq<bool> | |w| == WORD_BITS witness seq(WORD_BITS, _ => false)

  /** `0`. */
  function Zero(): Word
  {
    seq(WORD_BITS, _ => false)
  }

  /** `w == 0`. */
  predicate IsZero(w: Word)
  {
    forall i :: 0 <= i < WORD_BITS ==> !w[i]
  }

  /** `w + 1 == 0` on a `uint32_t`: every bit is set. */
  predicate AllSet(w: Word)
  {
    forall i :: 0 <= i < WORD_BITS ==> w[i]
  }

  /** `w | (1 << r)`. */
  function SetBit(w: Word, r: nat): Word
    requires r < WORD_BITS
  {
    w[r := true]
  }

  /** `w & ~(1 << r)`. */
  function ClearBit(w: Word, r: nat): Word
    requires r < WORD_BITS
  {
    w[r := false]
  }

  /** `a & b`. */
  function And(a: Word, b: Word): Word
  {
    seq(WORD_BITS, i requires 0 <= i < WORD_BITS => a[i] && b[i])
  }

  /** `w >>= 1`: every bit moves down one place and a zero comes in at the top. */
  function ShiftRightOne(w: Word): Word
  {
    w[1..] + [false]
  }

  /** `w >> n`: bit `j` of the result is bit `j + n` of `w`, or a zero shifted
      in from above bit 31. */
  function Shr(w: Word, n: nat): Word
  {
    seq(WORD_BITS, j requires 0 <= j < WORD_BITS => j + n < WORD_BITS && w[j + n])
  }

  /** `(1 << k) - 1` for `k <= 32`: the `k` low bits. */
  function LowMask(k: nat): Word
  {
    seq(WORD_BITS, i => i < k)
  }

  /** Shifting by nothing leaves the word as it is. */
  lemma ShrZero(w: Word)
    ensures Shr(w, 0) == w
  {
    assert forall j :: 0 <= j < WORD_BITS ==> Shr(w, 0)[j] == w[j];
  }

  /** Shifting right one place at a time, `n + 1` times, is `w >> (n + 1)`. */
  lemma ShiftRightOneStep(w: Word, n: nat)
    ensures ShiftRightOne(Shr(w, n)) == Shr(w, n + 1)
  {
    var x := ShiftRightOne(Shr(w, n));
    forall j | 0 <= j < WORD_BITS
      ensures x[j] == Shr(w, n + 1)[j]
    {
      if j < WORD_BITS - 1 {
        assert x[j] == Shr(w, n)[j + 1];
      }
    }
  }

  /** `((w >> b) & ((1 << k) - 1)) == 0` tests exactly the bits `b` to
      `b + k - 1` of `w` that lie inside the word: the bits shifted in from
      above bit 31 are zeros. */
  lemma FitsAtMeans(w: Word, b: nat, k: nat)
    ensures IsZero(And(Shr(w, b), LowMask(k)))
        <==> forall i :: b <= i < WORD_BITS && i < b + k ==> !w[i]
  {
    var x := And(Shr(w, b), LowMask(k));
    if !IsZero(x) {
      var j :| 0 <= j < WORD_BITS && x[j];
      assert b <= b + j < WORD_BITS && b + j < b + k && w[b + j];
    } else {
      forall i | b <= i < WORD_BITS && i < b + k
        ensures !w[i]
      {
        assert !x[i - b];
      }
    }
  }
}
