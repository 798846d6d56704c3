/**
 * The bit hasher `CalculateHashValue`, which appears word for word in
 * golobal.go and in hash/generator/generator.go.
 *
 * Scores are float32 values in the source; only their sign matters here, so
 * they are modelled as reals and compared with `> 0.0` (NaN is not modelled).
 * The `int64` accumulator is modelled as its 64-bit pattern (module Bits).
 */
module Hasher {
  import opened Bits

  /** The number of scores, and so of hash bits, golobal.go hashes. */
  const HashSize: nat := 55

  /** Go's `1 << uint64(shift)` on an `int64`: a shift of 64 or more gives 0. */
  function ShiftOne(shift: nat): (t: nat)
    ensures t < WordLimit
    ensures forall k :: Bit(t, k) <==> k == shift && shift < WordBits
  {
    if shift < WordBits then
      Pow2InWord(shift);
      Pow2Bits(shift);
      Pow2(shift)
    else
      NoBits();
      0
  }

  /**
   * The bits of a hash of `scores`: bit k (k < 64) is set exactly when
   * k < hashSize and scores[hashSize-1-k] > 0, and no bit at or above 64 is set.
   */
  ghost predicate HashBits(scores: seq<real>, hashSize: int, h: nat)
    requires hashSize <= |scores|
  {
    && (forall k :: 0 <= k < WordBits ==> (Bit(h, k) <==> k < hashSize && scores[hashSize - 1 - k] > 0.0))
    && (forall k :: WordBits <= k ==> !Bit(h, k))
  }

  /**
   * For i < hashSize, bit hashSize-1-i of the word is set exactly when
   * scores[i] > 0 (strictly); a bit that would land at position 64 or more
   * is lost, as Go's shift drops it; no other bit is set.
   */
  method CalculateHashValue(scores: seq<real>, hashSize: int) returns (hashValue: nat)
    requires hashSize <= |scores|
    ensures hashValue < WordLimit
    ensures HashBits(scores, hashSize, hashValue)
    ensures 0 <= hashSize < WordBits ==> hashValue < Pow2(hashSize) && Int64Of(hashValue) == hashValue
    ensures hashSize <= 0 ==> hashValue == 0
  {
    hashValue := 0;
    var tempHash: nat := 0;
    NoBits();
    var i := 0;
    while i < hashSize
      invariant 0 <= i <= (if hashSize < 0 then 0 else hashSize)
      invariant hashValue < WordLimit
      invariant 0 <= hashSize < WordBits ==> hashValue < Pow2(hashSize)
      invariant i == 0 ==> hashValue == 0
      invariant forall k :: 0 <= k ==>
        (Bit(hashValue, k) <==> hashSize - i <= k < hashSize && k < WordBits && scores[hashSize - 1 - k] > 0.0)
    {
      if scores[i] > 0.0 {
        tempHash := ShiftOne(hashSize - 1 - i);
      } else {
        tempHash := 0;
        NoBits();
      }
      OrInWord(hashValue, tempHash);
      if 0 <= hashSize < WordBits {
        assert tempHash < Pow2(hashSize) by {
          if tempHash != 0 {
            Pow2Monotone(hashSize - i, hashSize);
          }
        }
        OrBelowPow2(hashValue, tempHash, hashSize);
      }
      OrBits(hashValue, tempHash);
      hashValue := Or(hashValue, tempHash);
      i := i + 1;
    }
    if 0 <= hashSize < WordBits {
      Pow2InWord(hashSize);
    }
  }

  /**
   * The hash depends only on the signs of the first hashSize scores: two
   * score vectors whose entries below hashSize agree on being > 0 have the
   * same hash, so HashBits pins the result down to one value.
   */
  lemma HashDependsOnlyOnSigns(scores1: seq<real>, scores2: seq<real>, hashSize: int, h1: nat, h2: nat)
    requires hashSize <= |scores1| && hashSize <= |scores2|
    requires forall i :: 0 <= i < hashSize ==> (scores1[i] > 0.0 <==> scores2[i] > 0.0)
    requires HashBits(scores1, hashSize, h1) && HashBits(scores2, hashSize, h2)
    ensures h1 == h2
  {
    forall k: nat ensures Bit(h1, k) <==> Bit(h2, k) {
      if k < WordBits && k < hashSize {
        var i := hashSize - 1 - k;
        assert scores1[i] > 0.0 <==> scores2[i] > 0.0;
      }
    }
    SameBitsSameValue(h1, h2);
  }

  /**
   * The hash golobal.go computes, with HashSize = 55 scores, has no bit at or
   * above 55: it is a non-negative int64 below 2^55.
   */
  lemma GlobalHashWidth(scores: seq<real>, h: nat)
    requires HashSize <= |scores|
    requires HashBits(scores, HashSize, h)
    ensures h < Pow2(HashSize)
    ensures h < WordLimit && Int64Of(h) == h
  {
    forall k | HashSize <= k ensures !Bit(h, k) {
      if k < WordBits {
        assert !(k < HashSize);
      }
    }
    NoHighBitsBelowPow2(h, HashSize);
    Pow2InWord(HashSize);
  }
}
