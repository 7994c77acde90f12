/** The forms in which the five programs write the boolean functions and the sum of a round. */
module Forms {
  import opened Words
  import opened Fips180

  /** Gladman, Reid and Google. */
  function ChooseXor(x: word, y: word, z: word): word { z ^ (x & (y ^ z)) }

  /** Oryx and RFC 3174. */
  function ChooseOr(x: word, y: word, z: word): word { (x & y) | (!x & z) }

  /** Gladman. */
  function MajorityXor(x: word, y: word, z: word): word { (x & y) | (z & (x ^ y)) }

  /** Reid and Google. */
  function MajorityMixed(x: word, y: word, z: word): word { ((x | y) & z) | (x & y) }

  /** Oryx and RFC 3174. */
  function MajorityOr(x: word, y: word, z: word): word { (x & y) | (x & z) | (y & z) }

  lemma ChooseXorIsCh(x: word, y: word, z: word)
    ensures ChooseXor(x, y, z) == Ch(x, y, z)
  {
    assert z ^ (x & (y ^ z)) == (x & y) ^ (!x & z);
  }

  lemma ChooseOrIsCh(x: word, y: word, z: word)
    ensures ChooseOr(x, y, z) == Ch(x, y, z)
  {
    assert (x & y) | (!x & z) == (x & y) ^ (!x & z);
  }

  lemma MajorityXorIsMaj(x: word, y: word, z: word)
    ensures MajorityXor(x, y, z) == Maj(x, y, z)
  {
    assert (x & y) | (z & (x ^ y)) == (x & y) ^ (x & z) ^ (y & z);
  }

  lemma MajorityMixedIsMaj(x: word, y: word, z: word)
    ensures MajorityMixed(x, y, z) == Maj(x, y, z)
  {
    assert ((x | y) & z) | (x & y) == (x & y) ^ (x & z) ^ (y & z);
  }

  lemma MajorityOrIsMaj(x: word, y: word, z: word)
    ensures MajorityOr(x, y, z) == Maj(x, y, z)
  {
    assert (x & y) | (x & z) | (y & z) == (x & y) ^ (x & z) ^ (y & z);
  }

  function Rotr(x: word, n: bv8): word
    requires n <= 32
  {
    (x >> n) | (x << (32 - n))
  }

  lemma RightIsLeft(x: word)
    ensures Rotr(x, 27) == Rotl(x, 5) && Rotr(x, 2) == Rotl(x, 30)
  {}

  /** The byte swaps of Gladman and Reid, in words where the bytes keep to their pairs. */
  lemma PairwiseSwaps(x: word)
    ensures (Rotr(x, 24) & 0x00ff_00ff) | (Rotr(x, 8) & 0xff00_ff00) == Bswap(x)
    ensures (Rotl(x, 24) & 0xff00_ff00) | (Rotl(x, 8) & 0x00ff_00ff) == Bswap(x)
  {}
}
