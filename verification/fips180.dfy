/** SHA-1 as FIPS 180-4 defines it: the functions and constants of section 4, the padding of
    section 5.1.1 and the computation of section 6.1.2 over a fully expanded schedule. */
module Fips180 {
  import opened Words

  datatype Hash = Hash(a: word, b: word, c: word, d: word, e: word)

  const H0 := Hash(0x6745_2301, 0xefcd_ab89, 0x98ba_dcfe, 0x1032_5476, 0xc3d2_e1f0)

  function Ch(x: word, y: word, z: word): word { (x & y) ^ (!x & z) }

  function Parity(x: word, y: word, z: word): word { x ^ y ^ z }

  function Maj(x: word, y: word, z: word): word { (x & y) ^ (x & z) ^ (y & z) }

  function F(t: nat, x: word, y: word, z: word): word {
    if t < 20 then Ch(x, y, z)
    else if t < 40 then Parity(x, y, z)
    else if t < 60 then Maj(x, y, z)
    else Parity(x, y, z)
  }

  function K(t: nat): word {
    if t < 20 then 0x5a82_7999
    else if t < 40 then 0x6ed9_eba1
    else if t < 60 then 0x8f1b_bcdc
    else 0xca62_c1d6
  }

  type Block = s: seq<word> | |s| == 16 witness seq(16, i => 0)

  function Expanded(a: word, b: word, c: word, d: word): word { Rotl(a ^ b ^ c ^ d, 1) }

  /** The message schedule of a block. */
  function W(m: Block, t: nat): word {
    if t < 16 then m[t] else Expanded(W(m, t - 3), W(m, t - 8), W(m, t - 14), W(m, t - 16))
  }

  function Sum(a: word, f: word, e: word, k: word, w: word): word { a + f + e + k + w }

  function Round(h: Hash, t: nat, w: word): Hash {
    Hash(Sum(Rotl(h.a, 5), F(t, h.b, h.c, h.d), h.e, K(t), w), h.a, Rotl(h.b, 30), h.c, h.d)
  }

  /** The working variables after `t` rounds that start from `h`. */
  function Rounds(h: Hash, m: Block, t: nat): Hash {
    if t == 0 then h else Round(Rounds(h, m, t - 1), t - 1, W(m, t - 1))
  }

  function Plus(g: Hash, h: Hash): Hash {
    Hash(g.a + h.a, g.b + h.b, g.c + h.c, g.d + h.d, g.e + h.e)
  }

  function Compress(h: Hash, m: Block): Hash { Plus(h, Rounds(h, m, 80)) }

  /** The hash value after all the blocks of `s`. */
  function Chain(s: seq<byte>): Hash
    requires |s| % 64 == 0
  {
    if |s| == 0 then H0 else Compress(Chain(s[..|s| - 64]), WordsBE(s[|s| - 64..]))
  }

  function Zeros(n: nat): (r: seq<byte>)
    ensures |r| == n
    ensures forall i :: 0 <= i < n ==> r[i] == 0
  {
    seq(n, i => 0)
  }

  /** The number of zero bytes that bring `n` bytes and the marker to 56 modulo 64. */
  function ZeroCount(n: nat): nat { if n % 64 < 56 then 55 - n % 64 else 119 - n % 64 }

  /** The marker, the zeros and the number of bits as 64 bits; longer messages wrap around. */
  function Padding(n: nat): (r: seq<byte>)
    ensures (n + |r|) % 64 == 0
  {
    ZerosAlign(n);
    [0x80] + Zeros(ZeroCount(n)) + Digits(8 * n, 8)
  }

  lemma ZerosAlign(n: nat)
    ensures (n + 1 + ZeroCount(n)) % 64 == 56
    ensures (n + 1 + ZeroCount(n) + 8) % 64 == 0
  {
    var q, r := n / 64, n % 64;
    assert n == 64 * q + r;
    var k := if r < 56 then q else q + 1;
    assert n + 1 + ZeroCount(n) == 64 * k + 56;
    assert n + 1 + ZeroCount(n) + 8 == 64 * (k + 1);
  }

  function Padded(m: seq<byte>): (r: seq<byte>)
    ensures |r| % 64 == 0
  {
    m + Padding(|m|)
  }

  lemma PaddingParts(m: seq<byte>)
    ensures m + ([0x80] + Zeros(ZeroCount(|m|))) + Digits(8 * |m|, 8) == Padded(m)
  {}

  function Digest(h: Hash): (r: seq<byte>)
    ensures |r| == 20
  {
    BytesBE(h.a) + BytesBE(h.b) + BytesBE(h.c) + BytesBE(h.d) + BytesBE(h.e)
  }

  /** Zeros fed one at a time reach 56 modulo 64 exactly when all of them are there. */
  lemma ZerosReach56(n: nat, z: nat)
    requires z <= ZeroCount(n)
    ensures (n + 1 + z) % 64 == 56 <==> z == ZeroCount(n)
  {
    var q, s := n / 64, n % 64 + 1 + z;
    assert n + 1 + z == 64 * q + s;
    if s >= 64 {
      assert n + 1 + z == 64 * (q + 1) + (s - 64);
    }
  }

  /** SHA-1 of a message; the standard defines it for messages of fewer than 2^61 bytes. */
  function Sha1(m: seq<byte>): (r: seq<byte>)
    ensures |r| == 20
  {
    Digest(Chain(Padded(m)))
  }

  /** The part of `m` that fills whole blocks, and the rest. */
  function Done(m: seq<byte>): (r: seq<byte>)
    ensures |r| % 64 == 0
  {
    m[..|m| - |m| % 64]
  }

  function Rest(m: seq<byte>): (r: seq<byte>)
    ensures |r| == |m| % 64
  {
    m[|m| - |m| % 64..]
  }

  lemma WholeIsDone(p: seq<byte>)
    requires |p| % 64 == 0
    ensures Done(p) == p && Rest(p) == []
  {
    assert p[..|p|] == p;
  }

  lemma NothingDone()
    ensures Done([]) == [] && Rest([]) == [] && Chain([]) == H0
  {}

  /** Bytes that do not complete a block only lengthen the rest. */
  lemma FeedPartial(m: seq<byte>, d: seq<byte>)
    requires |Rest(m)| + |d| < 64
    ensures Done(m + d) == Done(m) && Rest(m + d) == Rest(m) + d
  {
    assert |m + d| - |m + d| % 64 == |m| - |m| % 64;
  }

  /** Bytes that complete a block are absorbed with the rest. */
  lemma FeedBlock(m: seq<byte>, d: seq<byte>)
    requires |Rest(m)| + |d| == 64
    ensures |m + d| % 64 == 0 && Done(m + d) == m + d && Rest(m + d) == []
    ensures Chain(m + d) == Compress(Chain(Done(m)), WordsBE(Rest(m) + d))
  {
    hide *;
    Rejoined(m, d);
    ChainStep(m + d, Done(m), Rest(m) + d);
    WholeIsDone(m + d);
  }

  lemma Parts(m: seq<byte>)
    ensures m == Done(m) + Rest(m) && |Done(m)| == |m| - |m| % 64
  {}

  /** The same bytes, divided where the whole blocks end. */
  lemma Rejoined(m: seq<byte>, d: seq<byte>)
    requires |Rest(m)| + |d| == 64
    ensures m + d == Done(m) + (Rest(m) + d)
    ensures |Done(m)| % 64 == 0 && |Rest(m) + d| == 64
  {
    Parts(m);
    DownToBlock(|m|);
    hide Done, Rest;
    Regroup(Done(m), Rest(m), d);
  }

  lemma Regroup(a: seq<byte>, b: seq<byte>, c: seq<byte>)
    ensures (a + b) + c == a + (b + c)
  {}

  lemma DownToBlock(n: nat)
    ensures (n - n % 64) % 64 == 0
  {
    assert n - n % 64 == 64 * (n / 64);
  }

  lemma OneMoreBlock(n: nat)
    requires n % 64 == 0
    ensures (n + 64) % 64 == 0
  {
    assert n + 64 == 64 * (n / 64 + 1);
  }

  lemma ChainStep(n: seq<byte>, s: seq<byte>, b: seq<byte>)
    requires n == s + b && |s| % 64 == 0 && |b| == 64
    ensures |n| % 64 == 0 && Chain(n) == Compress(Chain(s), WordsBE(b))
  {
    hide Compress, WordsBE;
    OneMoreBlock(|s|);
    assert n[..|n| - 64] == s && n[|n| - 64..] == b;
  }

  /** The digest of a message is that of the chain after the message and its padding. */
  lemma Sha1OfFed(m: seq<byte>)
    ensures Done(Padded(m)) == Padded(m)
    ensures Sha1(m) == Digest(Chain(Done(Padded(m))))
  {
    hide Padded;
    WholeIsDone(Padded(m));
  }

  /** The block that the marker completes when the length does not fit after it. */
  function Closing(r: seq<byte>): (b: seq<byte>)
    requires 55 < |r| < 64
    ensures |b| == 64
  {
    r + [0x80] + Zeros(63 - |r|)
  }

  /** The block that ends a padded message of `n` bytes whose rest is `r`. */
  function Last(r: seq<byte>, n: nat): (b: seq<byte>)
    requires |r| < 64
    ensures |b| == 64
  {
    if |r| > 55 then Zeros(56) + Digits(8 * n, 8) else r + [0x80] + Zeros(55 - |r|) + Digits(8 * n, 8)
  }

  /** The padded message is the whole blocks and then one or two blocks more. */
  lemma PaddingBlocks(m: seq<byte>)
    ensures var r := Rest(m);
            var h := Chain(Done(m));
            var g := if |r| > 55 then Compress(h, WordsBE(Closing(r))) else h;
            Chain(Padded(m)) == Compress(g, WordsBE(Last(r, |m|)))
  {
    hide Compress, Chain, WordsBE, Digits, Done, Rest;
    var d, r, tail := Done(m), Rest(m), Digits(8 * |m|, 8);
    Parts(m);
    if |r| > 55 {
      ChainStep(d + Closing(r), d, Closing(r));
      ChainStep(d + Closing(r) + Last(r, |m|), d + Closing(r), Last(r, |m|));
      assert Zeros(119 - |r|) == Zeros(63 - |r|) + Zeros(56);
      assert Padded(m) == d + Closing(r) + Last(r, |m|);
    } else {
      ChainStep(d + Last(r, |m|), d, Last(r, |m|));
      assert Padded(m) == d + Last(r, |m|);
    }
  }

  /** Words `t-16` to `t-1` of the schedule, each kept at its index modulo 16; the message
      words themselves before round 16. */
  ghost predicate Window(v: Block, m: Block, t: nat) {
    var n := if t < 16 then 16 else t;
    forall k :: n - 16 <= k < n ==> v[k % 16] == W(m, k)
  }

  function NextWord(v: Block, t: nat): word {
    Expanded(v[(t + 13) % 16], v[(t + 8) % 16], v[(t + 2) % 16], v[t % 16])
  }

  lemma WindowStarts(m: Block)
    ensures Window(m, m, 0)
  {}

  lemma Mod16(t: nat)
    requires t >= 16
    ensures (t + 13) % 16 == (t - 3) % 16 && (t + 8) % 16 == (t - 8) % 16
    ensures (t + 2) % 16 == (t - 14) % 16 && t % 16 == (t - 16) % 16
    ensures forall k :: t - 15 <= k < t ==> k % 16 != t % 16
  {
    forall k | t - 15 <= k < t ensures k % 16 != t % 16 {
      var q := t / 16;
      assert k / 16 == q || k / 16 == q - 1;
    }
  }

  /** Section 6.1.3: overwriting the oldest word of the window yields the next one. */
  lemma WindowStep(v: Block, m: Block, t: nat)
    requires t >= 16 && Window(v, m, t)
    ensures NextWord(v, t) == W(m, t)
    ensures Window(v[t % 16 := NextWord(v, t)], m, t + 1)
  {
    hide Expanded;
    Mod16(t);
    assert v[(t - 3) % 16] == W(m, t - 3) && v[(t - 8) % 16] == W(m, t - 8);
    assert v[(t - 14) % 16] == W(m, t - 14) && v[(t - 16) % 16] == W(m, t - 16);
  }

  lemma WindowEarly(v: Block, m: Block, t: nat)
    requires t < 16 && Window(v, m, t)
    ensures v[t] == W(m, t) && Window(v, m, t + 1)
  {
    assert t % 16 == t;
  }

  function Flatten(chunks: seq<seq<byte>>): seq<byte> {
    if |chunks| == 0 then [] else Flatten(chunks[..|chunks| - 1]) + chunks[|chunks| - 1]
  }
}
