/** Oryx's SHA-1 of oryx_sha1.c: a buffer that is a union of bytes and words, filled as far as the
    data goes, padded from a constant table and hashed by a loop in place. */
module OryxSha1 {
  import opened Common
  import opened Words
  import opened Fips180
  import opened Forms
  import opened Rolling

  /** The loop body after the word of the schedule is known. */
  method LoopRound(t: nat, a: word, b: word, c: word, d: word, e: word, w: word) returns (temp: word, r: word)
    ensures Hash(temp, a, r, c, d) == Round(Hash(a, b, c, d, e), t, w)
  {
    hide Ch, Maj, Parity, ChooseOr, MajorityOr, Rotl, Sum;
    ChooseOrIsCh(b, c, d);
    MajorityOrIsMaj(b, c, d);
    if t < 20 {
      temp := Sum(Rotl(a, 5), ChooseOr(b, c, d), e, 0x5a82_7999, w);
    } else if t < 40 {
      temp := Sum(Rotl(a, 5), Parity(b, c, d), e, 0x6ed9_eba1, w);
    } else if t < 60 {
      temp := Sum(Rotl(a, 5), MajorityOr(b, c, d), e, 0x8f1b_bcdc, w);
    } else {
      temp := Sum(Rotl(a, 5), Parity(b, c, d), e, 0xca62_c1d6, w);
    }
    r := Rotl(b, 30);
  }

  lemma TotalBits(n: nat)
    ensures var total := n % TWO64 * 8 % TWO64;
            Digits(8 * n, 8) == Digits(total / TWO32, 4) + Digits(total, 4)
  {
    hide Digits;
    var q, r := n / TWO64, n % TWO64;
    Pow256Of8();
    assert 8 * n == 8 * r + 8 * q * Pow256(8);
    DigitsWrap(8 * r, 8 * q, 8);
    var total := 8 * r % TWO64;
    Wrap64(8 * r);
    Halves(total / TWO32, total % TWO32);
    Wrap32(total);
  }

  /** As much of the padding table as is fed. */
  lemma TableStart(n: nat, size: nat, paddingSize: nat)
    requires size == n % 64 && paddingSize == if size < 56 then 56 - size else 64 + 56 - size
    ensures paddingSize == 1 + ZeroCount(n) <= 64
    ensures ([0x80] + Zeros(63))[..paddingSize] == [0x80] + Zeros(ZeroCount(n))
  {}

  lemma MemoryIsDigest(h: Hash)
    ensures BytesLE(Bswap(h.a)) + BytesLE(Bswap(h.b)) + BytesLE(Bswap(h.c)) + BytesLE(Bswap(h.d)) + BytesLE(Bswap(h.e))
         == Digest(h)
  {
    BytesOfSwapped(h.a);
    BytesOfSwapped(h.b);
    BytesOfSwapped(h.c);
    BytesOfSwapped(h.d);
    BytesOfSwapped(h.e);
    hide BytesLE, BytesBE, Bswap;
  }

  class Sha1Context {
    var h: Hash
    /** The memory that `w[16]` and `buffer[64]` share. */
    const buffer: array<byte>
    var size: nat
    var totalSize: nat
    /** The bytes hashed since `Init`. */
    ghost var msg: seq<byte>

    ghost predicate Valid()
      reads this, buffer
    {
      buffer.Length == 64 && size == |Rest(msg)| && buffer[..size] == Rest(msg) && h == Chain(Done(msg)) &&
      totalSize == |msg| % TWO64
    }

    constructor ()
      ensures buffer.Length == 64 && fresh(buffer)
    {
      buffer := new byte[64];
      h, size, totalSize, msg := Hash(0, 0, 0, 0, 0), 0, 0, [];
    }

    method Init()
      requires buffer.Length == 64
      modifies this
      ensures Valid() && msg == []
    {
      hide Chain, Done, Rest;
      NothingDone();
      h := Hash(0x6745_2301, 0xefcd_ab89, 0x98ba_dcfe, 0x1032_5476, 0xc3d2_e1f0);
      size := 0;
      totalSize := 0;
      msg := [];
    }

    method Update(data: seq<byte>)
      requires Valid()
      modifies this, buffer
      ensures Valid() && msg == old(msg) + data
    {
      hide Chain, Done, Rest, Valid;
      ghost var m := msg;
      var rest := data;
      while |rest| > 0
        invariant Valid() && msg + rest == m + data
        decreases |rest|
      {
        var n := Take(rest);
        rest := rest[n..];
      }
      assert msg + [] == msg;
    }

    /** One pass of the loop of `sha1Update`. */
    method Take(data: seq<byte>) returns (n: nat)
      requires Valid() && |data| > 0
      modifies this, buffer
      ensures Valid() && 0 < n <= |data| && msg == old(msg) + data[..n]
    {
      hide Chain, Compress, Done, Rest, WordsBE;
      n := if |data| > 64 - size then 64 - size else |data|;
      var part := data[..n];
      Copy(buffer, size, part);
      ModAdd64(|msg|, n);
      size := size + n;
      totalSize := (totalSize + n) % TWO64;
      if size == 64 {
        assert buffer[..] == Rest(msg) + part;
        FeedBlock(msg, part);
        ProcessBlock();
        size := 0;
      } else {
        FeedPartial(msg, part);
      }
      msg := msg + part;
      assert |Rest(msg)| == size;
    }

    method ProcessBlock()
      requires buffer.Length == 64
      modifies this`h, buffer
      ensures h == Compress(old(h), WordsBE(old(buffer[..])))
    {
      hide Round, W, Plus, View, Window, WordsBE;
      var a, b, c, d, e := h.a, h.b, h.c, h.d, h.e;
      ghost var m: Block := WordsBE(buffer[..]);
      ToHostOrder();
      WindowStarts(m);
      for t := 0 to 80
        invariant h == old(h)
        invariant Hash(a, b, c, d, e) == Rounds(h, m, t)
        invariant Window(View(buffer[..], 0), m, t)
      {
        var w;
        if t >= 16 {
          w := NextInPlace(buffer, 0, t, m);
        } else {
          w := FirstWord(buffer, 0, t, m);
        }
        var temp, r := LoopRound(t, a, b, c, d, e, w);
        e, d, c, b, a := d, c, r, a, temp;
      }
      h := Plus(h, Hash(a, b, c, d, e));
    }

    method ToHostOrder()
      requires buffer.Length == 64
      modifies buffer
      ensures View(buffer[..], 0) == WordsBE(old(buffer[..]))
    {
      hide View, WordsBE, Bswap;
      SwappedView(buffer[..]);
      ghost var m := WordsBE(buffer[..]);
      for t := 0 to 16
        invariant forall k :: 0 <= k < t ==> View(buffer[..], 0)[k] == m[k]
        invariant forall k :: t <= k < 16 ==> Bswap(View(buffer[..], 0)[k]) == m[k]
      {
        var w := LoadWord(buffer, 0, t);
        StoreWord(buffer, 0, t, Bswap(w));
      }
    }

    /** The hash words end in big-endian order, so their memory is the digest. */
    method Final(digest: array<byte>)
      requires Valid() && digest.Length >= 20 && digest != buffer
      modifies this, buffer, digest
      ensures digest[..20] == Sha1(old(msg))
    {
      hide Valid, Chain, Digest, Padded, Compress, WordsBE, Bswap, BytesLE, BytesBE;
      ghost var m := msg;
      PadAndProcess();
      Sha1OfFed(m);
      var g := Hash(Bswap(h.a), Bswap(h.b), Bswap(h.c), Bswap(h.d), Bswap(h.e));
      MemoryIsDigest(h);
      h := g;
      Copy(digest, 0, BytesLE(h.a) + BytesLE(h.b) + BytesLE(h.c) + BytesLE(h.d) + BytesLE(h.e));
    }

    method PadAndProcess()
      requires Valid()
      modifies this, buffer
      ensures h == Chain(Padded(old(msg)))
    {
      hide Chain, Padded, Rest, Done, Digits, Valid, ZeroCount;
      ghost var m := msg;
      SizesOfValid();
      var total := totalSize * 8 % TWO64;
      var paddingSize := if size < 56 then 56 - size else 64 + 56 - size;
      TableStart(|m|, size, paddingSize);
      var table := [0x80] + Zeros(63);
      Update(table[..paddingSize]);
      ZerosAlign(|m|);
      TotalBits(|m|);
      AppendLength(total);
      PaddingParts(m);
    }

    lemma SizesOfValid()
      requires Valid()
      ensures size == |msg| % 64 && totalSize == |msg| % TWO64
    {}

    /** Store the two length words and hash the block that they complete. */
    method AppendLength(total: nat)
      requires Valid() && |msg| % 64 == 56
      modifies this`h, buffer
      ensures |msg + (Digits(total / TWO32, 4) + Digits(total, 4))| % 64 == 0
      ensures h == Chain(msg + (Digits(total / TWO32, 4) + Digits(total, 4)))
    {
      hide Chain, Compress, WordsBE, Digits, Rest, Done, View, WordOf, Bswap, BytesLE;
      ghost var r := Rest(msg);
      StoreWord(buffer, 0, 14, Bswap(WordOf(total / TWO32)));
      StoreWord(buffer, 0, 15, Bswap(WordOf(total)));
      WordMemory(total / TWO32);
      WordMemory(total);
      ghost var tail := Digits(total / TWO32, 4) + Digits(total, 4);
      assert buffer[..] == r + tail;
      FeedBlock(msg, tail);
      ProcessBlock();
    }
  }
}
