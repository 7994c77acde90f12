/** What the functions of the specification compute, said without them: as products of words, bit by bit,
    and by counting. */
module Sha1Laws {
  import opened Words
  import opened Fips180

  /** A word doubled, with the bit that is carried out brought round. */
  function Doubled(x: word): word { 2 * x + x / 0x8000_0000 }

  /** Every later word of the schedule is so the exclusive or of four earlier ones. */
  lemma ScheduleWord(m: Block, t: nat)
    requires t >= 16
    ensures W(m, t) == Doubled(W(m, t - 3) ^ W(m, t - 8) ^ W(m, t - 14) ^ W(m, t - 16))
  {
    hide *;
    WordOfFour(m, t);
    RotatedOnce(W(m, t - 3) ^ W(m, t - 8) ^ W(m, t - 14) ^ W(m, t - 16));
  }

  lemma WordOfFour(m: Block, t: nat)
    requires t >= 16
    ensures W(m, t) == Rotl(W(m, t - 3) ^ W(m, t - 8) ^ W(m, t - 14) ^ W(m, t - 16), 1)
  {
    hide Rotl;
  }

  lemma RotatedOnce(x: word)
    ensures Rotl(x, 1) == Doubled(x)
  {}

  lemma RotatedFive(x: word)
    ensures Rotl(x, 5) == 32 * x + (x >> 27)
  {}

  lemma RotatedThirty(x: word)
    ensures Rotl(x, 30) == 0x4000_0000 * x + (x >> 2)
  {}

  /** Where the bits of `x` are set Ch takes those of `y`, elsewhere those of `z`. */
  lemma ChBits(x: word, y: word, z: word)
    ensures Ch(x, y, z) & x == y & x && Ch(x, y, z) & !x == z & !x
  {}

  /** Where two words have the same bit Maj has it too, and the order of the words does not matter. */
  lemma MajBits(x: word, y: word, z: word)
    ensures Maj(x, y, z) & !(x ^ y) == x & !(x ^ y)
    ensures Maj(x, y, z) == Maj(y, z, x) == Maj(z, x, y)
  {
    hide *;
    MajTwo(x, y, z);
    MajTurns(x, y, z);
    MajTurns(y, z, x);
  }

  lemma MajTwo(x: word, y: word, z: word)
    ensures Maj(x, y, z) & !(x ^ y) == x & !(x ^ y)
  {}

  lemma MajTurns(x: word, y: word, z: word)
    ensures Maj(x, y, z) == Maj(y, z, x)
  {}

  /** Parity and its three words cancel. */
  lemma ParityBits(x: word, y: word, z: word)
    ensures Parity(x, y, z) ^ z ^ y ^ x == 0
  {}

  /** The bytes of a word are its digits. */
  lemma LoadIsSum(a: byte, b: byte, c: byte, d: byte)
    ensures LoadBE([a, b, c, d]) ==
            0x100_0000 * (a as word) + 0x1_0000 * (b as word) + 0x100 * (c as word) + d as word
  {}

  /** `LowByte` counts up from 0 and wraps round after 255. */
  lemma LowByteCounts(n: nat)
    ensures LowByte(0) == 0 && LowByte(n + 1) == LowByte(n) + 1
  {
    hide Bits;
    BitsOfZero();
    var b := n % 256;
    if b == 255 {
      assert (n + 1) % 256 == 0;
      BitsOf255();
    } else {
      assert (n + 1) % 256 == b + 1;
      BitsCount(b, 8);
    }
  }

  lemma BitsOfZero()
    ensures Bits(0, 8) == 0
  {}

  lemma BitsOf255()
    ensures Bits(255, 8) == 0xff
  {
    assert Bits(15, 4) == 0x0f;
  }

  lemma {:induction false} BitsCount(b: nat, k: nat)
    requires k <= 8 && b + 1 < Two(k)
    ensures Bits(b + 1, k) == Bits(b, k) + 1
  {
    if k > 0 && b % 2 == 1 {
      assert (b + 1) / 2 == b / 2 + 1;
      BitsCount(b / 2, k - 1);
    }
  }
}
