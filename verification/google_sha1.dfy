/** The SHA-1 and HMAC-SHA1 of google_sha1.c: bytes enter one at a time, the block is hashed in
    the buffer itself, and the length is a 32-bit count of bytes. */
module GoogleSha1 {
  import opened Common
  import opened Words
  import opened Fips180
  import opened Forms
  import opened Rfc2104
  import opened Rolling

  /** Index `j ^ 3`: where a little-endian host keeps byte `j` of a big-endian word stream. */
  function Lane(j: nat): nat { j - j % 4 + 3 - j % 4 }

  lemma LanesAreBigEndian(mem: seq<byte>, s: seq<byte>)
    requires |mem| == |s| == 64
    requires forall j :: 0 <= j < 64 ==> mem[Lane(j)] == s[j]
    ensures View(mem, 0) == WordsBE(s)
  {
    hide LoadLE, LoadBE;
    forall i | 0 <= i < 16 ensures View(mem, 0)[i] == WordsBE(s)[i] {
      var p := 4 * i;
      LanesOfWord(i);
      assert mem[Lane(p)] == s[p] && mem[Lane(p + 1)] == s[p + 1];
      assert mem[Lane(p + 2)] == s[p + 2] && mem[Lane(p + 3)] == s[p + 3];
      LoadReversed(mem[p..p + 4], s[p..p + 4]);
    }
  }

  lemma LanesOfWord(i: nat)
    ensures Lane(4 * i) == 4 * i + 3 && Lane(4 * i + 1) == 4 * i + 2
    ensures Lane(4 * i + 2) == 4 * i + 1 && Lane(4 * i + 3) == 4 * i
  {}

  /** The sum of a round in the order in which this program adds it up. */
  function Total(f: word, k: word, a: word, e: word, w: word): word { (f + k) + (a + e + w) }

  lemma TotalIsSum(f: word, k: word, a: word, e: word, w: word)
    ensures Total(f, k, a, e, w) == Sum(a, f, e, k, w)
  {}

  /** One pass of the loop in `sha1_hashBlock`. */
  method HashRound(i: nat, a: word, b: word, c: word, d: word, e: word, w: word) returns (t: word, r: word)
    ensures Hash(t, a, r, c, d) == Round(Hash(a, b, c, d, e), i, w)
  {
    hide Ch, Maj, Parity, ChooseXor, MajorityMixed, Total, Rotl, Sum;
    ChooseXorIsCh(b, c, d);
    MajorityMixedIsMaj(b, c, d);
    var f, k;
    if i < 20 {
      f, k := ChooseXor(b, c, d), 0x5a82_7999;
    } else if i < 40 {
      f, k := Parity(b, c, d), 0x6ed9_eba1;
    } else if i < 60 {
      f, k := MajorityMixed(b, c, d), 0x8f1b_bcdc;
    } else {
      f, k := Parity(b, c, d), 0xca62_c1d6;
    }
    t := Total(f, k, Rotl(a, 5), e, w);
    TotalIsSum(f, k, Rotl(a, 5), e, w);
    r := Rotl(b, 30);
  }

  /** The padding that `sha1_pad` feeds after a message of `n` bytes. */
  function PaddingFed(n: nat): (r: seq<byte>)
    ensures (n + |r|) % 64 == 0
  {
    ZerosAlign(n);
    [0x80] + Zeros(ZeroCount(n)) + Digits(8 * (n % TWO32), 8)
  }

  /** It is the standard's padding exactly for the messages that the 32-bit count can hold. */
  lemma LengthLimit(n: nat)
    requires n < 0x2000_0000_0000_0000
    ensures PaddingFed(n) == Padding(n) <==> n < TWO32
  {
    hide Digits, Zeros, ZeroCount;
    var head := [0x80 as byte] + Zeros(ZeroCount(n));
    var x, y := Digits(8 * (n % TWO32), 8), Digits(8 * n, 8);
    assert (head + x)[|head|..] == x && (head + y)[|head|..] == y;
    if x == y {
      assert Pow256(8) == TWO64 by { Pow256Of8(); }
      DigitsInjective(8 * (n % TWO32), 8 * n, 8);
    }
  }

  /** The eight bytes that `sha1_pad` cuts out of the byte count. */
  lemma LengthBytes(n: u32)
    ensures Digits(8 * n, 8)
         == [0, 0, 0, LowByte(n / 0x2000_0000),
             LowByte(n / 0x20_0000), LowByte(n / 0x2000), LowByte(n / 0x20), LowByte(8 * n)]
  {
    hide LowByte, Digits;
    Shifts(n);
    Halves(8 * n / TWO32, 8 * n % TWO32);
    Wrap32(8 * n);
    Digits4(8 * n);
    Digits4(8 * n / TWO32);
    LowByteOfZero();
  }

  lemma LowByteOfZero()
    ensures LowByte(0) == 0
  {
    assert Bits(0, 8) == 0;
  }

  lemma Shifts(n: u32)
    ensures 8 * n / 0x100_0000 == n / 0x20_0000 && 8 * n / 0x1_0000 == n / 0x2000 && 8 * n / 0x100 == n / 0x20
    ensures 8 * n / TWO32 == n / 0x2000_0000 < 8
  {}

  lemma DigestOfFed(m: seq<byte>)
    requires |m| < TWO32
    ensures Sha1(m) == Digest(Chain(m + PaddingFed(|m|)))
  {
    hide PaddingFed, Padding, Chain, Digest;
    SmallLength(|m|);
  }

  lemma SmallLength(n: u32)
    ensures PaddingFed(n) == Padding(n)
  {
    assert n % TWO32 == n;
    hide Digits, ZeroCount, Zeros;
  }

  class Sha1Info {
    var state: Hash
    const buffer: array<byte>
    var byteCount: u32
    var bufferOffset: nat
    const keyBuffer: array<byte>
    const innerHash: array<byte>
    /** Everything fed to the hash since `Init`, padding included. */
    ghost var fed: seq<byte>

    ghost predicate Shape() {
      buffer.Length == 64 && keyBuffer.Length == 64 && innerHash.Length == 20 &&
      buffer != keyBuffer && buffer != innerHash && keyBuffer != innerHash
    }

    ghost predicate Valid()
      reads this, buffer
    {
      Shape() && bufferOffset == |fed| % 64 && state == Chain(Done(fed)) &&
      forall j :: 0 <= j < bufferOffset ==> buffer[Lane(j)] == Rest(fed)[j]
    }

    /** The bytes fed so far are a message, all of them counted. */
    ghost predicate Reading(m: seq<byte>)
      reads this, buffer
    {
      Valid() && fed == m && byteCount == |m| % TWO32
    }

    constructor ()
      ensures Shape() && fresh(buffer) && fresh(keyBuffer) && fresh(innerHash)
    {
      buffer, keyBuffer, innerHash := new byte[64], new byte[64], new byte[20];
      state, byteCount, bufferOffset, fed := Hash(0, 0, 0, 0, 0), 0, 0, [];
    }

    method Init()
      requires Shape()
      modifies this
      ensures Reading([])
    {
      hide Chain, Done, Rest;
      NothingDone();
      state := Hash(0x6745_2301, 0xefcd_ab89, 0x98ba_dcfe, 0x1032_5476, 0xc3d2_e1f0);
      byteCount := 0;
      bufferOffset := 0;
      fed := [];
    }

    method HashBlock()
      requires Shape()
      modifies this`state, buffer
      ensures state == Compress(old(state), old(View(buffer[..], 0)))
    {
      hide Round, W, Plus, View, Window;
      var a, b, c, d, e := state.a, state.b, state.c, state.d, state.e;
      ghost var m: Block := View(buffer[..], 0);
      WindowStarts(m);
      for i := 0 to 80
        invariant state == old(state)
        invariant Hash(a, b, c, d, e) == Rounds(state, m, i)
        invariant Window(View(buffer[..], 0), m, i)
      {
        var w;
        if i >= 16 {
          w := NextInPlace(buffer, 0, i, m);
        } else {
          w := FirstWord(buffer, 0, i, m);
        }
        var t, r := HashRound(i, a, b, c, d, e, w);
        e, d, c, b, a := d, c, r, a, t;
      }
      state := Plus(state, Hash(a, b, c, d, e));
    }

    method AddUncounted(data: byte)
      requires Valid()
      modifies this`state, this`bufferOffset, this`fed, buffer
      ensures Valid() && fed == old(fed) + [data]
    {
      hide Compress, Chain, Done, Rest;
      buffer[Lane(bufferOffset)] := data;
      bufferOffset := bufferOffset + 1;
      ghost var whole := Rest(fed) + [data];
      assert forall j :: 0 <= j < bufferOffset ==> buffer[Lane(j)] == whole[j];
      if bufferOffset == 64 {
        LanesAreBigEndian(buffer[..], whole);
        FeedBlock(fed, [data]);
        HashBlock();
        bufferOffset := 0;
      } else {
        FeedPartial(fed, [data]);
      }
      fed := fed + [data];
    }

    method WriteByte(data: byte, ghost m: seq<byte>)
      requires Reading(m)
      modifies this`state, this`bufferOffset, this`fed, this`byteCount, buffer
      ensures Reading(m + [data])
    {
      ModAdd(|fed|, 1);
      byteCount := (byteCount + 1) % TWO32;
      AddUncounted(data);
    }

    method Write(data: seq<byte>, ghost m: seq<byte>)
      requires Reading(m)
      modifies this`state, this`bufferOffset, this`fed, this`byteCount, buffer
      ensures Reading(m + data)
    {
      hide Reading;
      assert m + data[..0] == m;
      for i := 0 to |data|
        invariant Reading(m + data[..i])
      {
        WriteByte(data[i], m + data[..i]);
        assert m + data[..i] + [data[i]] == m + data[..i + 1];
      }
      assert data[..|data|] == data;
    }

    lemma Offset()
      requires Valid()
      ensures bufferOffset == |fed| % 64
    {}

    method Pad(ghost m: seq<byte>)
      requires Reading(m)
      modifies this`state, this`bufferOffset, this`fed, buffer
      ensures Valid() && fed == m + PaddingFed(|m|)
    {
      hide Valid, Digits, ZeroCount;
      AddUncounted(0x80);
      ghost var z := 0;
      while bufferOffset != 56
        invariant Valid() && z <= ZeroCount(|m|) && fed == m + ([0x80] + Zeros(z))
        decreases ZeroCount(|m|) - z
      {
        Offset();
        ZerosReach56(|m|, z);
        AddUncounted(0x00);
        z := z + 1;
        assert Zeros(z) == Zeros(z - 1) + [0];
      }
      Offset();
      ZerosReach56(|m|, z);
      PadLength();
      assert fed == m + ([0x80] + Zeros(z) + Digits(8 * byteCount, 8));
    }

    method PadLength()
      requires Valid()
      modifies this`state, this`bufferOffset, this`fed, buffer
      ensures Valid() && fed == old(fed) + Digits(8 * byteCount, 8)
    {
      hide Valid, Digits, LowByte;
      LengthBytes(byteCount);
      AddUncounted(0);
      AddUncounted(0);
      AddUncounted(0);
      AddUncounted(LowByte(byteCount / 0x2000_0000));
      AddUncounted(LowByte(byteCount / 0x20_0000));
      AddUncounted(LowByte(byteCount / 0x2000));
      AddUncounted(LowByte(byteCount / 0x20));
      AddUncounted(LowByte(8 * byteCount));
    }

    /** The returned pointer leads to the bytes of the swapped state words. */
    method SwapState() returns (digest: seq<byte>)
      modifies this`state
      ensures digest == Digest(old(state))
    {
      hide BytesBE, BytesLE, Bswap;
      BytesOfSwapped(state.a);
      BytesOfSwapped(state.b);
      BytesOfSwapped(state.c);
      BytesOfSwapped(state.d);
      BytesOfSwapped(state.e);
      state := Hash(Bswap(state.a), Bswap(state.b), Bswap(state.c), Bswap(state.d), Bswap(state.e));
      digest := BytesLE(state.a) + BytesLE(state.b) + BytesLE(state.c) + BytesLE(state.d) + BytesLE(state.e);
    }

    method Result(ghost m: seq<byte>) returns (digest: seq<byte>)
      requires Reading(m)
      modifies this`state, this`bufferOffset, this`fed, buffer
      ensures digest == Digest(Chain(m + PaddingFed(|m|)))
      ensures |m| < TWO32 ==> digest == Sha1(m)
    {
      hide PaddingFed, Chain, Digest, Sha1, Done, Rest;
      Pad(m);
      WholeIsDone(m + PaddingFed(|m|));
      if |m| < TWO32 {
        DigestOfFed(m);
      }
      digest := SwapState();
    }

    /** Keep the key as a block and start the inner hash. */
    method InitHmac(key: seq<byte>)
      requires Shape() && |key| < 0x8000_0000
      modifies this, buffer, keyBuffer
      ensures Reading(XorWith(KeyBlock(key), 0x36)) && keyBuffer[..] == KeyBlock(key)
    {
      hide Reading, KeyBlock, XorWith;
      KeepKey(key);
      Init();
      WriteMasked(0x36);
    }

    method KeepKey(key: seq<byte>)
      requires Shape() && |key| < 0x8000_0000
      modifies this, buffer, keyBuffer
      ensures keyBuffer[..] == KeyBlock(key)
    {
      hide Reading, Sha1, PaddingFed;
      ClearKey();
      var k := key;
      if |key| > 64 {
        Init();
        Write(key, []);
        assert [] + key == key;
        k := Result(key);
      }
      Copy(keyBuffer, 0, k);
    }

    method ClearKey()
      requires keyBuffer.Length == 64
      modifies keyBuffer
      ensures keyBuffer[..] == Zeros(64)
    {
      for i := 0 to 64
        invariant keyBuffer[..i] == Zeros(i)
      {
        keyBuffer[i] := 0;
      }
      assert keyBuffer[..64] == keyBuffer[..];
    }

    /** Feed the key block with every byte exclusive-ored. */
    method WriteMasked(pad: byte)
      requires Shape() && Reading([])
      modifies this`state, this`bufferOffset, this`fed, this`byteCount, buffer
      ensures Reading(XorWith(keyBuffer[..], pad))
    {
      hide Reading;
      ghost var masked := XorWith(keyBuffer[..], pad);
      assert masked[..0] == [];
      for i := 0 to 64
        invariant masked == XorWith(keyBuffer[..], pad)
        invariant Reading(masked[..i])
      {
        var b := keyBuffer[i] ^ pad;
        WriteByte(b, masked[..i]);
        assert b == masked[i];
        assert masked[..i] + [masked[i]] == masked[..i + 1];
      }
      assert masked[..64] == masked;
    }

    method ResultHmac(ghost key: seq<byte>, ghost text: seq<byte>) returns (digest: seq<byte>)
      requires Shape() && Reading(XorWith(KeyBlock(key), 0x36) + text) && keyBuffer[..] == KeyBlock(key)
      requires 64 + |text| < TWO32
      modifies this, buffer, innerHash
      ensures digest == Hmac(key, text)
    {
      hide Reading, Sha1, KeyBlock, XorWith, PaddingFed, Chain, Digest;
      var r := Result(XorWith(KeyBlock(key), 0x36) + text);
      Copy(innerHash, 0, r);
      assert innerHash[..] == r;
      Init();
      WriteMasked(0x5c);
      Write(innerHash[..], XorWith(KeyBlock(key), 0x5c));
      digest := Result(XorWith(KeyBlock(key), 0x5c) + r);
    }
  }
}
