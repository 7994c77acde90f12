/** The SHA-1 of RFC 3174 in rfc_sha1.c: bytes enter one at a time, the schedule is expanded to
    eighty words, and two flags say whether the digest is computed or the context spoiled. */
module Rfc3174 {
  import opened Common
  import opened Words
  import opened Fips180
  import opened Forms
  import opened DigestOutput

  const SHA_SUCCESS := 0
  const SHA_STATE_ERROR := 3

  function Total(a: word, f: word, e: word, w: word, k: word): word { a + f + e + w + k }

  lemma TotalIsSum(a: word, f: word, e: word, w: word, k: word)
    ensures Total(a, f, e, w, k) == Sum(a, f, e, k, w)
  {}

  /** The body that the four round loops share, with their boolean function and constant. */
  method LoopBody(t: nat, h: Hash, f: word, k: word, w: word) returns (r: Hash)
    requires f == F(t, h.b, h.c, h.d) && k == K(t)
    ensures r == Round(h, t, w)
  {
    hide F, K, Rotl, Sum, Total;
    var temp := Total(Rotl(h.a, 5), f, h.e, w, k);
    TotalIsSum(Rotl(h.a, 5), f, h.e, w, k);
    r := Hash(temp, h.a, Rotl(h.b, 30), h.c, h.d);
  }

  class Sha1Context {
    var intermediate: Hash
    var lengthLow: u32
    var lengthHigh: u32
    var index: nat
    const block: array<byte>
    var computed: bool
    var corrupted: nat
    /** The bytes accepted since `Reset`. */
    ghost var msg: seq<byte>

    /** Neither flag is set: the counters hold the exact number of bits. */
    ghost predicate Reading()
      reads this, block
    {
      block.Length == 64 && index == |Rest(msg)| && block[..index] == Rest(msg) &&
      intermediate == Chain(Done(msg)) && lengthHigh * TWO32 + lengthLow == 8 * |msg|
    }

    ghost predicate Valid()
      reads this, block
    {
      block.Length == 64 &&
      (corrupted == 0 && !computed ==> Reading()) &&
      (corrupted == 0 && computed ==> intermediate == Chain(Padded(msg)))
    }

    constructor ()
      ensures block.Length == 64 && fresh(block)
    {
      block := new byte[64];
      intermediate, lengthLow, lengthHigh, index := Hash(0, 0, 0, 0, 0), 0, 0, 0;
      computed, corrupted, msg := false, 0, [];
    }

    method Reset()
      requires block.Length == 64
      modifies this
      ensures Valid() && msg == [] && corrupted == 0 && !computed
    {
      lengthLow := 0;
      lengthHigh := 0;
      index := 0;
      intermediate := Hash(0x6745_2301, 0xefcd_ab89, 0x98ba_dcfe, 0x1032_5476, 0xc3d2_e1f0);
      computed := false;
      corrupted := 0;
      msg := [];
    }

    method Result(digest: array<byte>) returns (code: nat)
      requires Valid() && digest.Length >= 20 && digest != block
      modifies this, block, digest
      ensures Valid() && msg == old(msg) && corrupted == old(corrupted)
      ensures old(corrupted) != 0 ==>
        code == old(corrupted) && digest[..] == old(digest[..]) && computed == old(computed)
      ensures old(corrupted) == 0 ==> code == SHA_SUCCESS && digest[..20] == Sha1(msg) && computed
    {
      if corrupted != 0 {
        return corrupted;
      }
      hide Chain, Padded, Digest, Done, Rest, Reading;
      if !computed {
        PadMessage();
        Wipe();
        lengthLow := 0;
        lengthHigh := 0;
        computed := true;
      }
      Sha1OfFed(msg);
      WriteDigest(intermediate, digest);
      code := SHA_SUCCESS;
    }

    method Wipe()
      requires block.Length == 64
      modifies block
      ensures block[..] == Zeros(64)
    {
      for i := 0 to 64
        invariant block[..i] == Zeros(i)
      {
        block[i] := 0;
        assert block[..i + 1] == block[..i] + [0];
      }
    }

    method Input(data: seq<byte>) returns (code: nat)
      requires Valid() && |data| < TWO32
      modifies this, block
      ensures Valid() && computed == old(computed)
      ensures |data| == 0 ==> code == SHA_SUCCESS && msg == old(msg) && corrupted == old(corrupted)
      ensures |data| > 0 && computed ==> code == corrupted == SHA_STATE_ERROR
      ensures |data| > 0 && !computed && old(corrupted) != 0 ==> code == corrupted == old(corrupted)
      ensures |data| > 0 && !computed && old(corrupted) == 0 ==>
        && code == SHA_SUCCESS
        && (8 * (|old(msg)| + |data|) < TWO64 ==> corrupted == 0 && msg == old(msg) + data)
        && (8 * (|old(msg)| + |data|) >= TWO64 ==> corrupted == 1)
    {
      hide Chain, Done, Rest;
      if |data| == 0 {
        return SHA_SUCCESS;
      }
      if computed {
        corrupted := SHA_STATE_ERROR;
        return SHA_STATE_ERROR;
      }
      if corrupted != 0 {
        return corrupted;
      }
      var i := 0;
      assert msg + data[..0] == msg;
      while i < |data| && corrupted == 0
        invariant 0 <= i <= |data| && !computed && block.Length == 64
        invariant corrupted == 0 ==> Reading() && msg == old(msg) + data[..i] && 8 * |msg| < TWO64
        invariant corrupted != 0 ==> corrupted == 1 && 8 * (|old(msg)| + i) >= TWO64
      {
        assert data[..i + 1] == data[..i] + [data[i]];
        assert old(msg) + data[..i + 1] == msg + [data[i]];
        InputByte(data[i]);
        i := i + 1;
      }
      assert data[..|data|] == data;
      code := SHA_SUCCESS;
    }

    /** One pass of the loop of `SHA1Input`: the context is spoiled exactly when the number of bits
        reaches 2^64. */
    method InputByte(b: byte)
      requires Reading() && 8 * |msg| < TWO64
      modifies this`index, this`lengthLow, this`lengthHigh, this`corrupted, this`intermediate, this`msg, block
      ensures 8 * |old(msg)| + 8 < TWO64 ==> Reading() && msg == old(msg) + [b] && corrupted == old(corrupted)
      ensures 8 * |old(msg)| + 8 >= TWO64 ==> corrupted == 1
    {
      hide Chain, Compress, WordsBE, Done, Rest;
      ghost var r := Rest(msg);
      block[index] := b;
      index := index + 1;
      assert block[..index] == r + [b];
      CountByte();
      if index == 64 {
        assert block[..] == r + [b];
        FeedBlock(msg, [b]);
        ProcessMessageBlock();
      } else {
        FeedPartial(msg, [b]);
      }
      msg := msg + [b];
    }

    method CountByte()
      requires lengthHigh * TWO32 + lengthLow == 8 * |msg| < TWO64
      modifies this`lengthLow, this`lengthHigh, this`corrupted
      ensures 8 * |msg| + 8 < TWO64 ==>
        lengthHigh * TWO32 + lengthLow == 8 * |msg| + 8 && corrupted == old(corrupted)
      ensures 8 * |msg| + 8 >= TWO64 ==> corrupted == 1
    {
      lengthLow := (lengthLow + 8) % TWO32;
      if lengthLow == 0 {
        lengthHigh := (lengthHigh + 1) % TWO32;
        if lengthHigh == 0 {
          corrupted := 1;
        }
      }
    }

    method ProcessMessageBlock()
      requires block.Length == 64
      modifies this`intermediate, this`index
      ensures intermediate == Compress(old(intermediate), WordsBE(block[..])) && index == 0
    {
      hide Round, W, Plus, WordsBE, Ch, Maj, Parity, ChooseOr, MajorityOr;
      ghost var g, m := intermediate, WordsBE(block[..]);
      var w := ExpandSchedule();
      ghost var schedule := w[..];
      var h := intermediate;
      for t := 0 to 20
        invariant h == Rounds(g, m, t) && intermediate == g && w[..] == schedule && block[..] == old(block[..])
      {
        ChooseOrIsCh(h.b, h.c, h.d);
        h := LoopBody(t, h, ChooseOr(h.b, h.c, h.d), 0x5a82_7999, w[t]);
      }
      for t := 20 to 40
        invariant h == Rounds(g, m, t) && intermediate == g && w[..] == schedule && block[..] == old(block[..])
      {
        h := LoopBody(t, h, Parity(h.b, h.c, h.d), 0x6ed9_eba1, w[t]);
      }
      for t := 40 to 60
        invariant h == Rounds(g, m, t) && intermediate == g && w[..] == schedule && block[..] == old(block[..])
      {
        MajorityOrIsMaj(h.b, h.c, h.d);
        h := LoopBody(t, h, MajorityOr(h.b, h.c, h.d), 0x8f1b_bcdc, w[t]);
      }
      for t := 60 to 80
        invariant h == Rounds(g, m, t) && intermediate == g && w[..] == schedule && block[..] == old(block[..])
      {
        h := LoopBody(t, h, Parity(h.b, h.c, h.d), 0xca62_c1d6, w[t]);
      }
      intermediate := Plus(intermediate, h);
      index := 0;
    }

    /** The eighty words of the schedule. */
    method ExpandSchedule() returns (w: array<word>)
      requires block.Length == 64
      ensures fresh(w) && w.Length == 80
      ensures forall k :: 0 <= k < 80 ==> w[k] == W(WordsBE(block[..]), k)
    {
      hide WordsBE, W;
      w := LoadWords();
      for t := 16 to 80
        invariant forall k :: 0 <= k < t ==> w[k] == W(WordsBE(block[..]), k)
      {
        Expand(w, t, WordsBE(block[..]));
      }
    }

    method LoadWords() returns (w: array<word>)
      requires block.Length == 64
      ensures fresh(w) && w.Length == 80
      ensures forall k :: 0 <= k < 16 ==> w[k] == W(WordsBE(block[..]), k)
    {
      hide LoadBE;
      w := new word[80];
      for t := 0 to 16
        invariant forall k :: 0 <= k < t ==> w[k] == WordsBE(block[..])[k]
      {
        var b := [block[4 * t], block[4 * t + 1], block[4 * t + 2], block[4 * t + 3]];
        assert b == block[..][4 * t..4 * t + 4];
        w[t] := LoadBE(b);
      }
    }

    method Expand(w: array<word>, t: nat, ghost m: Block)
      requires w.Length == 80 && 16 <= t < 80 && forall k :: 0 <= k < t ==> w[k] == W(m, k)
      modifies w
      ensures forall k :: 0 <= k < t + 1 ==> w[k] == W(m, k)
    {
      w[t] := Rotl(w[t - 3] ^ w[t - 8] ^ w[t - 14] ^ w[t - 16], 1);
    }

    method PadMessage()
      requires Reading()
      modifies this`intermediate, this`index, block
      ensures intermediate == Chain(Padded(msg))
    {
      hide Chain, Compress, WordsBE, Done, Rest, Padded;
      ghost var r := Rest(msg);
      PaddingBlocks(msg);
      if index > 55 {
        MarkAndClear(64, r);
        assert block[..] == Closing(r);
        ProcessMessageBlock();
        assert block[..0] == [] == Zeros(0);
        Clear(56);
      } else {
        MarkAndClear(56, r);
      }
      StoreLength();
      assert block[..] == Last(r, |msg|);
      ProcessMessageBlock();
    }

    /** Store the marker and then zeros up to `end`. */
    method MarkAndClear(end: nat, ghost r: seq<byte>)
      requires block.Length == 64 && index == |r| < end <= 64 && block[..index] == r
      modifies this`index, block
      ensures index == end && block[..end] == r + [0x80] + Zeros(end - |r| - 1)
    {
      block[index] := 0x80;
      index := index + 1;
      assert block[..index] == r + [0x80];
      while index < end
        invariant |r| < index <= end && block[..index] == r + [0x80] + Zeros(index - |r| - 1)
      {
        block[index] := 0;
        index := index + 1;
        assert block[..index] == block[..index - 1] + [0];
      }
    }

    method Clear(end: nat)
      requires block.Length == 64 && index == 0 && end <= 64
      modifies this`index, block
      ensures index == end && block[..end] == Zeros(end)
    {
      while index < end
        invariant 0 <= index <= end && block[..index] == Zeros(index)
      {
        block[index] := 0;
        index := index + 1;
        assert block[..index] == block[..index - 1] + [0];
      }
    }

    method StoreLength()
      requires block.Length == 64 && lengthHigh * TWO32 + lengthLow == 8 * |msg|
      modifies block
      ensures block[..] == old(block[..56]) + Digits(8 * |msg|, 8)
    {
      hide LowByte, Digits;
      Halves(lengthHigh, lengthLow);
      Digits4(lengthHigh);
      Digits4(lengthLow);
      block[56] := LowByte(lengthHigh / 0x100_0000);
      block[57] := LowByte(lengthHigh / 0x1_0000);
      block[58] := LowByte(lengthHigh / 0x100);
      block[59] := LowByte(lengthHigh);
      block[60] := LowByte(lengthLow / 0x100_0000);
      block[61] := LowByte(lengthLow / 0x1_0000);
      block[62] := LowByte(lengthLow / 0x100);
      block[63] := LowByte(lengthLow);
    }
  }
}
