/** Gladman's SHA-1 of sha1.c: whole blocks straight from the caller, unrolled rounds that rename
    the working variables instead of moving them, and padding done on words. */
module GladmanSha1 {
  import opened Common
  import opened Words
  import opened Fips180
  import opened Forms
  import opened Rolling
  import opened DigestOutput

  /** The macros that `one_cycle` takes for its boolean function. */
  datatype Macro = ChMacro | ParityMacro | MajMacro
  {
    function Of(x: word, y: word, z: word): word {
      match this
      case ChMacro => ChooseXor(x, y, z)
      case ParityMacro => Parity(x, y, z)
      case MajMacro => MajorityXor(x, y, z)
    }

    /** This macro and constant are those of round `t`. */
    ghost predicate Fits(k: word, t: nat) {
      k == K(t) &&
      this == if t < 20 then ChMacro else if t < 40 then ParityMacro else if t < 60 then MajMacro else ParityMacro
    }
  }

  function Total(e: word, a: word, f: word, k: word, h: word): word { e + (a + f + k + h) }

  lemma TotalIsSum(e: word, a: word, f: word, k: word, h: word)
    ensures Total(e, a, f, k, h) == Sum(a, f, e, k, h)
  {}

  method OneCycle(ghost t: nat, a: word, b: word, c: word, d: word, e: word, f: Macro, k: word, h: word)
    returns (e': word, b': word)
    requires f.Fits(k, t)
    ensures Hash(e', a, b', c, d) == Round(Hash(a, b, c, d, e), t, h)
  {
    hide Rotr, Rotl, Total, Sum, Ch, Maj, Parity, ChooseXor, MajorityXor;
    ChooseXorIsCh(b, c, d);
    MajorityXorIsMaj(b, c, d);
    RightIsLeft(a);
    RightIsLeft(b);
    e' := Total(e, Rotr(a, 27), f.Of(b, c, d), k, h);
    TotalIsSum(e, Rotr(a, 27), f.Of(b, c, d), k, h);
    b' := Rotr(b, 2);
  }

  function SwapMacro(x: word): word { (Rotr(x, 24) & 0x00ff_00ff) | (Rotr(x, 8) & 0xff00_ff00) }

  lemma SwapMacroSwaps(x: word)
    ensures SwapMacro(x) == Bswap(x)
  {
    PairwiseSwaps(x);
  }

  /** Keep the first `j` bytes of a word, put the marker after them and zeros after it: the masks
      are `0xffffff80` and `0x80`, shifted left by `8 * (3 - j)` bits. */
  function Mark(w: word, j: nat): word
    requires j < 4
  {
    if j == 0 then (w & 0x8000_0000) | 0x8000_0000
    else if j == 1 then (w & 0xff80_0000) | 0x0080_0000
    else if j == 2 then (w & 0xffff_8000) | 0x0000_8000
    else (w & 0xffff_ff80) | 0x0000_0080
  }

  lemma MarkedBytes(w: word, j: nat)
    requires j < 4
    ensures Mark(w, j) == LoadBE(BytesBE(w)[..j] + [0x80] + Zeros(3 - j))
  {
    hide ByteOf, LoadBE, Mark;
    var b := BytesBE(w)[..j] + [0x80] + Zeros(3 - j);
    if j == 0 {
      assert b == [0x80, 0, 0, 0];
      MarkedAt0(w, b);
    } else if j == 1 {
      assert b == [ByteOf(w, 0), 0x80, 0, 0];
      MarkedAt1(w, b);
    } else if j == 2 {
      assert b == [ByteOf(w, 0), ByteOf(w, 1), 0x80, 0];
      MarkedAt2(w, b);
    } else {
      assert b == [ByteOf(w, 0), ByteOf(w, 1), ByteOf(w, 2), 0x80];
      MarkedAt3(w, b);
    }
  }

  lemma MarkedAt0(w: word, b: seq<byte>)
    requires |b| == 4 && b[0] == 0x80 && b[1] == b[2] == b[3] == 0
    ensures Mark(w, 0) == LoadBE(b)
  {}

  lemma MarkedAt1(w: word, b: seq<byte>)
    requires |b| == 4 && b[0] == ByteOf(w, 0) && b[1] == 0x80 && b[2] == b[3] == 0
    ensures Mark(w, 1) == LoadBE(b)
  {}

  lemma MarkedAt2(w: word, b: seq<byte>)
    requires |b| == 4 && b[0] == ByteOf(w, 0) && b[1] == ByteOf(w, 1) && b[2] == 0x80 && b[3] == 0
    ensures Mark(w, 2) == LoadBE(b)
  {}

  lemma MarkedAt3(w: word, b: seq<byte>)
    requires |b| == 4 && b[0] == ByteOf(w, 0) && b[1] == ByteOf(w, 1) && b[2] == ByteOf(w, 2) && b[3] == 0x80
    ensures Mark(w, 3) == LoadBE(b)
  {}

  lemma CountModulo(c1: u32, c0: u32, n: nat)
    requires c1 * TWO32 + c0 == n % TWO64
    ensures c0 % 64 == n % 64
  {
    assert n == TWO64 * (n / TWO64) + TWO32 * c1 + c0;
  }

  /** The carry test of `sha1_hash` keeps the pair a count modulo 2^64. */
  lemma AddToCount(c1: u32, c0: u32, n: nat, len: u32)
    requires c1 * TWO32 + c0 == n % TWO64
    ensures var low := (c0 + len) % TWO32;
            var high := if low < len then (c1 + 1) % TWO32 else c1;
            high * TWO32 + low == (n + len) % TWO64
  {
    ModAdd64(n, len);
    var v := c1 * TWO32 + c0;
    assert (v + len) % TWO64 == if v + len < TWO64 then v + len else v + len - TWO64;
  }

  /** The words that start with the bytes `r` and the marker after them. */
  ghost predicate Marked(v: seq<word>, r: seq<byte>)
    requires |v| == 16 && |r| < 64
  {
    (forall k :: 0 <= k < |r| / 4 ==> v[k] == LoadBE(r[4 * k..4 * k + 4])) &&
    v[|r| / 4] == LoadBE(r[|r| - |r| % 4..] + [0x80] + Zeros(3 - |r| % 4))
  }

  function PaddedBytes(r: seq<byte>, e: nat, tail: seq<byte>): (b: seq<byte>)
    requires |r| < 4 * e <= 64 && |tail| == 64 - 4 * e
    ensures |b| == 64
  {
    r + [0x80] + Zeros(4 * e - |r| - 1) + tail
  }

  /** The four bytes of word `k`. */
  lemma PaddedSlice(r: seq<byte>, e: nat, tail: seq<byte>, k: nat)
    requires |r| < 4 * e <= 64 && |tail| == 64 - 4 * e && k < 16
    ensures PaddedBytes(r, e, tail)[4 * k..4 * k + 4] ==
            if k < |r| / 4 then r[4 * k..4 * k + 4]
            else if k == |r| / 4 then r[|r| - |r| % 4..] + [0x80] + Zeros(3 - |r| % 4)
            else if k < e then [0, 0, 0, 0]
            else tail[4 * (k - e)..4 * (k - e) + 4]
  {
    var b := PaddedBytes(r, e, tail);
    if |r| / 4 < k < e {
      var z := 4 * k - |r| - 1;
      assert b[4 * k..4 * k + 4] == Zeros(4 * e - |r| - 1)[z..z + 4];
    }
  }

  /** Words that are marked, zero up to word `e` and then those of `tail` are a padded block. */
  lemma PaddedWords(v: seq<word>, r: seq<byte>, e: nat, tail: seq<byte>)
    requires |v| == 16 && |r| < 4 * e <= 64 && |tail| == 64 - 4 * e && Marked(v, r)
    requires forall k :: |r| / 4 < k < e ==> v[k] == 0
    requires forall k :: e <= k < 16 ==> v[k] == LoadBE(tail[4 * (k - e)..4 * (k - e) + 4])
    ensures v == WordsBE(r + [0x80] + Zeros(4 * e - |r| - 1) + tail)
  {
    var b := PaddedBytes(r, e, tail);
    LoadOfZeros();
    hide LoadBE, PaddedBytes;
    forall k | 0 <= k < 16 ensures v[k] == LoadBE(b[4 * k..4 * k + 4]) {
      PaddedSlice(r, e, tail, k);
    }
  }

  lemma ZeroWords(v: seq<word>, tail: seq<byte>)
    requires |v| == 16 && |tail| == 8
    requires forall k :: 0 <= k < 14 ==> v[k] == 0
    requires v[14] == LoadBE(tail[..4]) && v[15] == LoadBE(tail[4..])
    ensures v == WordsBE(Zeros(56) + tail)
  {
    var b := Zeros(56) + tail;
    LoadOfZeros();
    hide LoadBE;
    forall k | 0 <= k < 16 ensures v[k] == LoadBE(b[4 * k..4 * k + 4]) {
      if k < 14 {
        assert b[4 * k..4 * k + 4] == [0, 0, 0, 0];
      } else {
        assert b[4 * k..4 * k + 4] == tail[4 * (k - 14)..4 * (k - 14) + 4];
      }
    }
  }

  lemma LoadOfZeros()
    ensures LoadBE([0, 0, 0, 0]) == 0
  {}

  /** Swapping and marking the words of a memory that starts with `r`, whatever follows it. */
  lemma MarkedMemory(mem: seq<byte>, r: seq<byte>, w: word)
    requires |mem| == 64 && |r| < 64 && mem[..|r|] == r
    requires w == if |r| % 4 == 0 then View(mem, 0)[|r| / 4] else Bswap(View(mem, 0)[|r| / 4])
    ensures Mark(w, |r| % 4) == LoadBE(r[|r| - |r| % 4..] + [0x80] + Zeros(3 - |r| % 4))
    ensures forall k :: 0 <= k < |r| / 4 ==> Bswap(View(mem, 0)[k]) == LoadBE(r[4 * k..4 * k + 4])
  {
    hide Mark, Bswap, LoadBE, LoadLE, ByteOf;
    var k, j := |r| / 4, |r| % 4;
    var b := mem[4 * k..4 * k + 4];
    MarkedBytes(w, j);
    assert forall p :: 0 <= p < |r| ==> mem[p] == mem[..|r|][p] == r[p];
    if j == 0 {
      assert BytesBE(w)[..0] == r[|r| - 0..];
    } else {
      BswapLoads(b);
      BytesOfLoadBE(b);
      assert BytesBE(w) == b && |r| - j == 4 * k;
      assert forall p :: 0 <= p < j ==> b[p] == mem[4 * k + p] == r[4 * k + p];
      assert b[..j] == r[|r| - j..];
    }
    forall k | 0 <= k < |r| / 4 ensures Bswap(View(mem, 0)[k]) == LoadBE(r[4 * k..4 * k + 4]) {
      BswapLoads(mem[4 * k..4 * k + 4]);
      assert mem[4 * k..4 * k + 4] == r[4 * k..4 * k + 4];
    }
  }

  /** The two length words of `sha1_end`, out of a count of bytes modulo 2^64. */
  lemma LengthWords(c1: u32, c0: u32, n: nat)
    requires c1 * TWO32 + c0 == n % TWO64
    ensures Digits(8 * n, 8)[..4] == Digits(8 * c1 % TWO32 + c0 / 0x2000_0000, 4)
    ensures Digits(8 * n, 8)[4..] == Digits(8 * c0 % TWO32, 4)
  {
    hide Digits;
    var q, high, low := n / TWO64, 8 * c1 + c0 / 0x2000_0000, 8 * c0 % TWO32;
    assert 8 * n == high * TWO32 + low + 8 * q * TWO64;
    Pow256Of8();
    DigitsWrap(high * TWO32 + low, 8 * q, 8);
    Halves(high, low);
    Pow256Of4();
    var p := 8 * c1 / TWO32;
    assert high == 8 * c1 % TWO32 + c0 / 0x2000_0000 + p * TWO32;
    DigitsWrap(8 * c1 % TWO32 + c0 / 0x2000_0000, p, 4);
    var x, y := Digits(8 * c1 % TWO32 + c0 / 0x2000_0000, 4), Digits(8 * c0 % TWO32, 4);
    assert (x + y)[..4] == x && (x + y)[4..] == y;
  }

  class Context {
    var count0: u32
    var count1: u32
    var hash: Hash
    /** The memory of `uint32_t wbuf[16]`. */
    const wbuf: array<byte>
    /** The bytes hashed since `Begin`. */
    ghost var msg: seq<byte>

    ghost predicate Valid()
      reads this, wbuf
    {
      wbuf.Length == 64 && hash == Chain(Done(msg)) && wbuf[..|Rest(msg)|] == Rest(msg) &&
      count1 * TWO32 + count0 == |msg| % TWO64
    }

    constructor ()
      ensures wbuf.Length == 64 && fresh(wbuf)
    {
      wbuf := new byte[64];
      count0, count1, hash, msg := 0, 0, Hash(0, 0, 0, 0, 0), [];
    }

    method Begin()
      requires wbuf.Length == 64
      modifies this
      ensures Valid() && msg == []
    {
      hide Chain, Done, Rest;
      NothingDone();
      count0, count1 := 0, 0;
      hash := Hash(0x6745_2301, 0xefcd_ab89, 0x98ba_dcfe, 0x1032_5476, 0xc3d2_e1f0);
      msg := [];
    }

    /** The macro `hf`: a word of the block, then of the schedule written over it. */
    method Hf(i: nat, ghost m: Block) returns (w: word)
      requires wbuf.Length == 64 && Window(View(wbuf[..], 0), m, i)
      modifies wbuf
      ensures w == W(m, i) && Window(View(wbuf[..], 0), m, i + 1)
    {
      if i < 16 {
        w := FirstWord(wbuf, 0, i, m);
      } else {
        w := NextInPlace(wbuf, 0, i, m);
      }
    }

    method FiveCycle(i: nat, a: word, b: word, c: word, d: word, e: word, f: Macro, k: word,
        ghost h: Hash, ghost m: Block)
      returns (v0: word, v1: word, v2: word, v3: word, v4: word)
      requires wbuf.Length == 64 && Window(View(wbuf[..], 0), m, i) && Hash(a, b, c, d, e) == Rounds(h, m, i)
      requires forall t :: i <= t < i + 5 ==> f.Fits(k, t)
      modifies wbuf
      ensures Window(View(wbuf[..], 0), m, i + 5) && Hash(v0, v1, v2, v3, v4) == Rounds(h, m, i + 5)
    {
      hide Window, View, W, Round, Macro.Fits;
      v0, v1, v2, v3, v4 := a, b, c, d, e;
      var w := Hf(i, m);
      v4, v1 := OneCycle(i, v0, v1, v2, v3, v4, f, k, w);
      assert Hash(v4, v0, v1, v2, v3) == Rounds(h, m, i + 1);
      w := Hf(i + 1, m);
      v3, v0 := OneCycle(i + 1, v4, v0, v1, v2, v3, f, k, w);
      assert Hash(v3, v4, v0, v1, v2) == Rounds(h, m, i + 2);
      w := Hf(i + 2, m);
      v2, v4 := OneCycle(i + 2, v3, v4, v0, v1, v2, f, k, w);
      assert Hash(v2, v3, v4, v0, v1) == Rounds(h, m, i + 3);
      w := Hf(i + 3, m);
      v1, v3 := OneCycle(i + 3, v2, v3, v4, v0, v1, f, k, w);
      assert Hash(v1, v2, v3, v4, v0) == Rounds(h, m, i + 4);
      w := Hf(i + 4, m);
      v0, v2 := OneCycle(i + 4, v1, v2, v3, v4, v0, f, k, w);
      assert Hash(v0, v1, v2, v3, v4) == Rounds(h, m, i + 5);
    }

    method Rounds0To19(a: word, b: word, c: word, d: word, e: word, ghost g: Hash, ghost m: Block)
      returns (v0: word, v1: word, v2: word, v3: word, v4: word)
      requires wbuf.Length == 64 && Window(View(wbuf[..], 0), m, 0) && Hash(a, b, c, d, e) == Rounds(g, m, 0)
      modifies wbuf
      ensures Window(View(wbuf[..], 0), m, 20) && Hash(v0, v1, v2, v3, v4) == Rounds(g, m, 20)
    {
      hide Window, View, W, Round;
      v0, v1, v2, v3, v4 := a, b, c, d, e;
      v0, v1, v2, v3, v4 := FiveCycle(0, v0, v1, v2, v3, v4, ChMacro, 0x5a82_7999, g, m);
      v0, v1, v2, v3, v4 := FiveCycle(5, v0, v1, v2, v3, v4, ChMacro, 0x5a82_7999, g, m);
      v0, v1, v2, v3, v4 := FiveCycle(10, v0, v1, v2, v3, v4, ChMacro, 0x5a82_7999, g, m);
      var w := Hf(15, m);
      v4, v1 := OneCycle(15, v0, v1, v2, v3, v4, ChMacro, 0x5a82_7999, w);
      assert Hash(v4, v0, v1, v2, v3) == Rounds(g, m, 16);
      w := Hf(16, m);
      v3, v0 := OneCycle(16, v4, v0, v1, v2, v3, ChMacro, 0x5a82_7999, w);
      assert Hash(v3, v4, v0, v1, v2) == Rounds(g, m, 17);
      w := Hf(17, m);
      v2, v4 := OneCycle(17, v3, v4, v0, v1, v2, ChMacro, 0x5a82_7999, w);
      assert Hash(v2, v3, v4, v0, v1) == Rounds(g, m, 18);
      w := Hf(18, m);
      v1, v3 := OneCycle(18, v2, v3, v4, v0, v1, ChMacro, 0x5a82_7999, w);
      assert Hash(v1, v2, v3, v4, v0) == Rounds(g, m, 19);
      w := Hf(19, m);
      v0, v2 := OneCycle(19, v1, v2, v3, v4, v0, ChMacro, 0x5a82_7999, w);
      assert Hash(v0, v1, v2, v3, v4) == Rounds(g, m, 20);
    }

    method Rounds20To59(a: word, b: word, c: word, d: word, e: word, ghost g: Hash, ghost m: Block)
      returns (v0: word, v1: word, v2: word, v3: word, v4: word)
      requires wbuf.Length == 64 && Window(View(wbuf[..], 0), m, 20) && Hash(a, b, c, d, e) == Rounds(g, m, 20)
      modifies wbuf
      ensures Window(View(wbuf[..], 0), m, 60) && Hash(v0, v1, v2, v3, v4) == Rounds(g, m, 60)
    {
      hide Window, View, W, Round, Rounds;
      v0, v1, v2, v3, v4 := a, b, c, d, e;
      v0, v1, v2, v3, v4 := FiveCycle(20, v0, v1, v2, v3, v4, ParityMacro, 0x6ed9_eba1, g, m);
      v0, v1, v2, v3, v4 := FiveCycle(25, v0, v1, v2, v3, v4, ParityMacro, 0x6ed9_eba1, g, m);
      v0, v1, v2, v3, v4 := FiveCycle(30, v0, v1, v2, v3, v4, ParityMacro, 0x6ed9_eba1, g, m);
      v0, v1, v2, v3, v4 := FiveCycle(35, v0, v1, v2, v3, v4, ParityMacro, 0x6ed9_eba1, g, m);
      v0, v1, v2, v3, v4 := FiveCycle(40, v0, v1, v2, v3, v4, MajMacro, 0x8f1b_bcdc, g, m);
      v0, v1, v2, v3, v4 := FiveCycle(45, v0, v1, v2, v3, v4, MajMacro, 0x8f1b_bcdc, g, m);
      v0, v1, v2, v3, v4 := FiveCycle(50, v0, v1, v2, v3, v4, MajMacro, 0x8f1b_bcdc, g, m);
      v0, v1, v2, v3, v4 := FiveCycle(55, v0, v1, v2, v3, v4, MajMacro, 0x8f1b_bcdc, g, m);
    }

    method Rounds60To79(a: word, b: word, c: word, d: word, e: word, ghost g: Hash, ghost m: Block)
      returns (v0: word, v1: word, v2: word, v3: word, v4: word)
      requires wbuf.Length == 64 && Window(View(wbuf[..], 0), m, 60) && Hash(a, b, c, d, e) == Rounds(g, m, 60)
      modifies wbuf
      ensures Window(View(wbuf[..], 0), m, 80) && Hash(v0, v1, v2, v3, v4) == Rounds(g, m, 80)
    {
      hide Window, View, W, Round, Rounds;
      v0, v1, v2, v3, v4 := a, b, c, d, e;
      v0, v1, v2, v3, v4 := FiveCycle(60, v0, v1, v2, v3, v4, ParityMacro, 0xca62_c1d6, g, m);
      v0, v1, v2, v3, v4 := FiveCycle(65, v0, v1, v2, v3, v4, ParityMacro, 0xca62_c1d6, g, m);
      v0, v1, v2, v3, v4 := FiveCycle(70, v0, v1, v2, v3, v4, ParityMacro, 0xca62_c1d6, g, m);
      v0, v1, v2, v3, v4 := FiveCycle(75, v0, v1, v2, v3, v4, ParityMacro, 0xca62_c1d6, g, m);
    }

    method Compile()
      requires wbuf.Length == 64
      modifies this`hash, wbuf
      ensures hash == Compress(old(hash), old(View(wbuf[..], 0)))
    {
      hide Window, View, Plus;
      var v0, v1, v2, v3, v4 := hash.a, hash.b, hash.c, hash.d, hash.e;
      ghost var g := hash;
      ghost var m: Block := View(wbuf[..], 0);
      WindowStarts(m);
      v0, v1, v2, v3, v4 := Rounds0To19(v0, v1, v2, v3, v4, g, m);
      v0, v1, v2, v3, v4 := Rounds20To59(v0, v1, v2, v3, v4, g, m);
      v0, v1, v2, v3, v4 := Rounds60To79(v0, v1, v2, v3, v4, g, m);
      hash := Plus(hash, Hash(v0, v1, v2, v3, v4));
    }

    /** The macro `bsw_32` on the first `n` words of the buffer. */
    method SwapWords(n: nat)
      requires wbuf.Length == 64 && n <= 16
      modifies wbuf
      ensures forall k :: 0 <= k < 16 ==>
        View(wbuf[..], 0)[k] == if k < n then Bswap(old(View(wbuf[..], 0)[k])) else old(View(wbuf[..], 0)[k])
    {
      hide View, Bswap, SwapMacro;
      var i := n;
      while i > 0
        invariant 0 <= i <= n
        invariant forall k :: 0 <= k < 16 ==>
          View(wbuf[..], 0)[k] == if i <= k < n then Bswap(old(View(wbuf[..], 0)[k])) else old(View(wbuf[..], 0)[k])
      {
        i := i - 1;
        var w := LoadWord(wbuf, 0, i);
        SwapMacroSwaps(w);
        StoreWord(wbuf, 0, i, SwapMacro(w));
      }
    }

    /** Hash the block whose bytes are in the buffer. */
    method SwapAndCompile()
      requires wbuf.Length == 64
      modifies this`hash, wbuf
      ensures hash == Compress(old(hash), WordsBE(old(wbuf[..])))
    {
      hide View, Bswap, Compress, WordsBE;
      SwappedView(wbuf[..]);
      ghost var words := WordsBE(wbuf[..]);
      SwapWords(16);
      assert View(wbuf[..], 0) == words;
      Compile();
    }

    method HashData(data: seq<byte>)
      requires Valid() && |data| < TWO32
      modifies this, wbuf
      ensures Valid() && msg == old(msg) + data
    {
      hide Compress, Chain, Done, Rest, WordsBE;
      var pos := count0 % 64;
      var space := 64 - pos;
      CountModulo(count1, count0, |msg|);
      Count(|data|);
      var sp, len := 0, |data|;
      ghost var fed, counts := msg, (count1, count0);
      assert msg + data[..0] == msg;
      while len >= space
        invariant msg == old(msg) && counts == (count1, count0)
        invariant 0 <= sp && 0 <= len && sp + len == |data| && space == 64 - pos && 0 <= pos < 64
        invariant fed == msg + data[..sp] && pos == |Rest(fed)|
        invariant hash == Chain(Done(fed)) && wbuf[..pos] == Rest(fed)
        decreases len
      {
        Fill(pos, data[sp..sp + space], fed);
        fed := fed + data[sp..sp + space];
        assert fed == msg + data[..sp + space];
        sp, len, space, pos := sp + space, len - space, 64, 0;
      }
      Keep(pos, data[sp..], fed);
      assert fed + data[sp..] == msg + data;
      msg := msg + data;
    }

    method Count(len: u32)
      requires count1 * TWO32 + count0 == |msg| % TWO64
      modifies this`count0, this`count1
      ensures count1 * TWO32 + count0 == (|msg| + len) % TWO64
    {
      AddToCount(count1, count0, |msg|, len);
      count0 := (count0 + len) % TWO32;
      if count0 < len {
        count1 := (count1 + 1) % TWO32;
      }
    }

    /** Complete the block in the buffer and hash it. */
    method Fill(pos: nat, part: seq<byte>, ghost fed: seq<byte>)
      requires wbuf.Length == 64 && pos == |Rest(fed)| && pos + |part| == 64
      requires hash == Chain(Done(fed)) && wbuf[..pos] == Rest(fed)
      modifies this`hash, wbuf
      ensures |Rest(fed + part)| == 0 && hash == Chain(Done(fed + part))
    {
      hide Compress, Chain, Done, Rest, WordsBE;
      Copy(wbuf, pos, part);
      assert wbuf[..] == Rest(fed) + part;
      FeedBlock(fed, part);
      SwapAndCompile();
    }

    /** Keep bytes that do not complete a block. */
    method Keep(pos: nat, part: seq<byte>, ghost fed: seq<byte>)
      requires wbuf.Length == 64 && pos == |Rest(fed)| && pos + |part| < 64
      requires hash == Chain(Done(fed)) && wbuf[..pos] == Rest(fed)
      modifies wbuf
      ensures hash == Chain(Done(fed + part)) && |Rest(fed + part)| == pos + |part|
      ensures wbuf[..pos + |part|] == Rest(fed + part)
    {
      hide Compress, Chain, Done, Rest;
      Copy(wbuf, pos, part);
      FeedPartial(fed, part);
    }

    method End(hval: array<byte>)
      requires Valid() && hval.Length >= 20 && hval != wbuf
      modifies this`hash, wbuf, hval
      ensures hval[..20] == Sha1(msg)
    {
      hide Chain, Digest, Padded;
      PadAndCompile();
      Sha1OfFed(msg);
      WriteDigest(hash, hval);
    }

    method PadAndCompile()
      requires Valid()
      modifies this`hash, wbuf
      ensures hash == Chain(Padded(msg))
    {
      hide Chain, Compress, Padded, Rest, Done, View, WordsBE, Marked, Closing, Last;
      CountModulo(count1, count0, |msg|);
      PaddingBlocks(msg);
      ghost var r := Rest(msg);
      var i := count0 % 64;
      MarkEnd(i, r);
      if i > 55 {
        CloseBlock(i, r);
        i := 0;
      } else {
        i := i / 4 + 1;
      }
      LastBlock(i, r);
    }

    /** Fill the block with zeros after the marker when the length does not fit, and hash it. */
    method CloseBlock(i: nat, ghost r: seq<byte>)
      requires wbuf.Length == 64 && 55 < i == |r| < 64 && Marked(View(wbuf[..], 0), r)
      modifies this`hash, wbuf
      ensures hash == Compress(old(hash), WordsBE(Closing(r)))
    {
      hide Compress, View, WordsBE;
      if i < 60 {
        StoreWord(wbuf, 0, 15, 0);
      }
      PaddedWords(View(wbuf[..], 0), r, 16, []);
      assert r + [0x80] + Zeros(63 - |r|) + [] == r + [0x80] + Zeros(63 - |r|);
      Compile();
    }

    method LastBlock(i: nat, ghost r: seq<byte>)
      requires wbuf.Length == 64 && count1 * TWO32 + count0 == |msg| % TWO64 && |r| < 64
      requires if |r| > 55 then i == 0 else i == |r| / 4 + 1 && Marked(View(wbuf[..], 0), r)
      modifies this`hash, wbuf
      ensures hash == Compress(old(hash), WordsBE(Last(r, |msg|)))
    {
      hide Compress, View, WordsBE, Digits;
      ClearAndCount(i, |msg|);
      if i == 0 {
        ZeroWords(View(wbuf[..], 0), Digits(8 * |msg|, 8));
      } else {
        PaddedWords(View(wbuf[..], 0), r, 14, Digits(8 * |msg|, 8));
      }
      Compile();
    }

    /** Swap the words that hold message bytes and put the marker into the last of them. */
    method MarkEnd(i: nat, ghost r: seq<byte>)
      requires wbuf.Length == 64 && i == |r| < 64 && wbuf[..i] == r
      modifies wbuf
      ensures Marked(View(wbuf[..], 0), r)
    {
      hide View, Mark, Bswap, LoadBE;
      ghost var mem := wbuf[..];
      SwapWords((i + 3) / 4);
      var w := LoadWord(wbuf, 0, i / 4);
      assert i / 4 < (i + 3) / 4 <==> i % 4 != 0;
      MarkedMemory(mem, r, w);
      ghost var v := View(wbuf[..], 0);
      assert forall k :: 0 <= k < i / 4 ==> v[k] == LoadBE(r[4 * k..4 * k + 4]);
      StoreWord(wbuf, 0, i / 4, Mark(w, i % 4));
      assert View(wbuf[..], 0) == v[i / 4 := Mark(w, i % 4)];
    }

    /** Zero the words from `i` to the thirteenth and store the number of bits in the last two. */
    method ClearAndCount(from: nat, ghost n: nat)
      requires wbuf.Length == 64 && from <= 14 && count1 * TWO32 + count0 == n % TWO64
      modifies wbuf
      ensures var v, tail := View(wbuf[..], 0), Digits(8 * n, 8);
              && (forall k :: 0 <= k < from ==> v[k] == old(View(wbuf[..], 0)[k]))
              && (forall k :: from <= k < 14 ==> v[k] == 0)
              && v[14] == LoadBE(tail[..4]) && v[15] == LoadBE(tail[4..])
    {
      hide View, Digits, LoadBE;
      LengthWords(count1, count0, n);
      var i := from;
      while i < 14
        invariant from <= i <= 14
        invariant forall k :: 0 <= k < from ==> View(wbuf[..], 0)[k] == old(View(wbuf[..], 0)[k])
        invariant forall k :: from <= k < i ==> View(wbuf[..], 0)[k] == 0
      {
        StoreWord(wbuf, 0, i, 0);
        i := i + 1;
      }
      StoreWord(wbuf, 0, 14, WordOf(8 * count1 % TWO32 + count0 / 0x2000_0000));
      StoreWord(wbuf, 0, 15, WordOf(8 * count0 % TWO32));
    }
  }
}
