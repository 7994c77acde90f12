/** The public-domain SHA-1 of pd_sha1.c by Steve Reid, without `SHA1HANDSOFF`: blocks are hashed
    where they lie, in the caller's memory, and overwritten by their own schedule. */
module ReidSha1 {
  import opened Common
  import opened Words
  import opened Fips180
  import opened Forms
  import opened Rolling
  import opened DigestOutput

  /** The block while it is hashed in place: before round 16 its first `t` words are in host
      order and the others as they were; from then on it is the window of the schedule. */
  ghost predicate InPlace(v: Block, m: Block, t: nat) {
    if t < 16 then forall k :: 0 <= k < 16 ==> v[k] == if k < t then m[k] else Bswap(m[k])
    else Window(v, m, t)
  }

  /** Nothing but the 64 bytes at `base` differs. */
  ghost predicate Outside(was: seq<byte>, now: seq<byte>, base: nat) {
    base + 64 <= |was| == |now| && now[..base] == was[..base] && now[base + 64..] == was[base + 64..]
  }

  function Total(z: word, f: word, b: word, k: word, r: word): word { z + (f + b + k + r) }

  lemma TotalIsSum(z: word, f: word, b: word, k: word, r: word)
    ensures Total(z, f, b, k, r) == Sum(r, f, z, k, b)
  {}

  function SwapMacro(x: word): word { (Rotl(x, 24) & 0xff00_ff00) | (Rotl(x, 8) & 0x00ff_00ff) }

  lemma SwapMacroSwaps(x: word)
    ensures SwapMacro(x) == Bswap(x)
  {
    PairwiseSwaps(x);
  }

  lemma SwapTwice(x: word)
    ensures Bswap(Bswap(x)) == x
  {}

  /** The macro `blk0`. */
  method Blk0(mem: array<byte>, base: nat, i: nat, ghost m: Block, ghost was: seq<byte>) returns (w: word)
    requires base + 64 <= mem.Length && Outside(was, mem[..], base) && i < 16 && InPlace(View(mem[..], base), m, i)
    modifies mem
    ensures w == W(m, i) && InPlace(View(mem[..], base), m, i + 1) && Outside(was, mem[..], base)
  {
    hide View, Bswap, SwapMacro, Rotl;
    var x := LoadWord(mem, base, i);
    SwapMacroSwaps(x);
    SwapTwice(m[i]);
    w := SwapMacro(x);
    StoreWord(mem, base, i, w);
  }

  /** The macro `blk`. */
  method Blk(mem: array<byte>, base: nat, i: nat, ghost m: Block, ghost was: seq<byte>) returns (w: word)
    requires base + 64 <= mem.Length && Outside(was, mem[..], base) && 16 <= i && InPlace(View(mem[..], base), m, i)
    modifies mem
    ensures w == W(m, i) && InPlace(View(mem[..], base), m, i + 1) && Outside(was, mem[..], base)
  {
    hide View, Window, W;
    w := NextInPlace(mem, base, i, m);
  }

  method R0(mem: array<byte>, base: nat, v: word, w: word, x: word, y: word, z: word, i: nat,
      ghost h: Hash, ghost m: Block, ghost was: seq<byte>)
    returns (z': word, w': word)
    requires base + 64 <= mem.Length && Outside(was, mem[..], base) && 0 <= i < 16 && InPlace(View(mem[..], base), m, i)
    requires Hash(v, w, x, y, z) == Rounds(h, m, i)
    modifies mem
    ensures InPlace(View(mem[..], base), m, i + 1) && Outside(was, mem[..], base)
    ensures Hash(z', v, w', x, y) == Rounds(h, m, i + 1)
  {
    hide View, InPlace, Outside, W, Rotl, Sum, Total, Ch, Maj, Parity, ChooseXor, MajorityMixed;
    ChooseXorIsCh(w, x, y);
    var b := Blk0(mem, base, i, m, was);
    z' := Total(z, ChooseXor(w, x, y), b, 0x5a82_7999, Rotl(v, 5));
    TotalIsSum(z, ChooseXor(w, x, y), b, 0x5a82_7999, Rotl(v, 5));
    w' := Rotl(w, 30);
  }

  method R1(mem: array<byte>, base: nat, v: word, w: word, x: word, y: word, z: word, i: nat,
      ghost h: Hash, ghost m: Block, ghost was: seq<byte>)
    returns (z': word, w': word)
    requires base + 64 <= mem.Length && Outside(was, mem[..], base)
    requires 16 <= i < 20 && InPlace(View(mem[..], base), m, i)
    requires Hash(v, w, x, y, z) == Rounds(h, m, i)
    modifies mem
    ensures InPlace(View(mem[..], base), m, i + 1) && Outside(was, mem[..], base)
    ensures Hash(z', v, w', x, y) == Rounds(h, m, i + 1)
  {
    hide View, InPlace, Outside, W, Rotl, Sum, Total, Ch, Maj, Parity, ChooseXor, MajorityMixed;
    ChooseXorIsCh(w, x, y);
    var b := Blk(mem, base, i, m, was);
    z' := Total(z, ChooseXor(w, x, y), b, 0x5a82_7999, Rotl(v, 5));
    TotalIsSum(z, ChooseXor(w, x, y), b, 0x5a82_7999, Rotl(v, 5));
    w' := Rotl(w, 30);
  }

  method R2(mem: array<byte>, base: nat, v: word, w: word, x: word, y: word, z: word, i: nat,
      ghost h: Hash, ghost m: Block, ghost was: seq<byte>)
    returns (z': word, w': word)
    requires base + 64 <= mem.Length && Outside(was, mem[..], base)
    requires 20 <= i < 40 && InPlace(View(mem[..], base), m, i)
    requires Hash(v, w, x, y, z) == Rounds(h, m, i)
    modifies mem
    ensures InPlace(View(mem[..], base), m, i + 1) && Outside(was, mem[..], base)
    ensures Hash(z', v, w', x, y) == Rounds(h, m, i + 1)
  {
    hide View, InPlace, Outside, W, Rotl, Sum, Total, Ch, Maj, Parity, ChooseXor, MajorityMixed;
    var b := Blk(mem, base, i, m, was);
    z' := Total(z, Parity(w, x, y), b, 0x6ed9_eba1, Rotl(v, 5));
    TotalIsSum(z, Parity(w, x, y), b, 0x6ed9_eba1, Rotl(v, 5));
    w' := Rotl(w, 30);
  }

  method R3(mem: array<byte>, base: nat, v: word, w: word, x: word, y: word, z: word, i: nat,
      ghost h: Hash, ghost m: Block, ghost was: seq<byte>)
    returns (z': word, w': word)
    requires base + 64 <= mem.Length && Outside(was, mem[..], base)
    requires 40 <= i < 60 && InPlace(View(mem[..], base), m, i)
    requires Hash(v, w, x, y, z) == Rounds(h, m, i)
    modifies mem
    ensures InPlace(View(mem[..], base), m, i + 1) && Outside(was, mem[..], base)
    ensures Hash(z', v, w', x, y) == Rounds(h, m, i + 1)
  {
    hide View, InPlace, Outside, W, Rotl, Sum, Total, Ch, Maj, Parity, ChooseXor, MajorityMixed;
    MajorityMixedIsMaj(w, x, y);
    var b := Blk(mem, base, i, m, was);
    z' := Total(z, MajorityMixed(w, x, y), b, 0x8f1b_bcdc, Rotl(v, 5));
    TotalIsSum(z, MajorityMixed(w, x, y), b, 0x8f1b_bcdc, Rotl(v, 5));
    w' := Rotl(w, 30);
  }

  method R4(mem: array<byte>, base: nat, v: word, w: word, x: word, y: word, z: word, i: nat,
      ghost h: Hash, ghost m: Block, ghost was: seq<byte>)
    returns (z': word, w': word)
    requires base + 64 <= mem.Length && Outside(was, mem[..], base)
    requires 60 <= i < 80 && InPlace(View(mem[..], base), m, i)
    requires Hash(v, w, x, y, z) == Rounds(h, m, i)
    modifies mem
    ensures InPlace(View(mem[..], base), m, i + 1) && Outside(was, mem[..], base)
    ensures Hash(z', v, w', x, y) == Rounds(h, m, i + 1)
  {
    hide View, InPlace, Outside, W, Rotl, Sum, Total, Ch, Maj, Parity, ChooseXor, MajorityMixed;
    var b := Blk(mem, base, i, m, was);
    z' := Total(z, Parity(w, x, y), b, 0xca62_c1d6, Rotl(v, 5));
    TotalIsSum(z, Parity(w, x, y), b, 0xca62_c1d6, Rotl(v, 5));
    w' := Rotl(w, 30);
  }

  lemma RawBlock(mem: seq<byte>, base: nat)
    requires base + 64 <= |mem|
    ensures InPlace(View(mem, base), WordsBE(mem[base..base + 64]), 0)
  {
    hide LoadLE, LoadBE, Bswap;
    var b := mem[base..base + 64];
    forall k | 0 <= k < 16 ensures View(mem, base)[k] == Bswap(WordsBE(b)[k]) {
      SliceOfSlice(mem, base, base + 64, 4 * k, 4 * k + 4);
      BswapLoads(b[4 * k..4 * k + 4]);
    }
  }

  /** `(int32_t) len >> 29`, an arithmetic shift, as the unsigned number that is added. */
  function SignedShift(len: u32): u32 {
    if len < 0x8000_0000 then len / 0x2000_0000 else TWO32 - 8 + len / 0x2000_0000
  }

  /** The pair of counters after `SHA1_Update` adds a length to it. */
  function Counted(c1: u32, c0: u32, len: u32): (u32, u32) {
    var bits := 8 * len % TWO32;
    var low := (c0 + bits) % TWO32;
    var carried := if low < bits then (c1 + 1) % TWO32 else c1;
    ((carried + SignedShift(len)) % TWO32, low)
  }

  /** The counters stay the number of bits modulo 2^64 exactly when the length does not look
      negative to the signed shift. */
  lemma CountExact(c1: u32, c0: u32, len: u32)
    ensures var (high, low) := Counted(c1, c0, len);
            high * TWO32 + low == (c1 * TWO32 + c0 + 8 * len) % TWO64 <==> len < 0x8000_0000
  {
    hide SignedShift;
    var (high, low) := Counted(c1, c0, len);
    var bits := 8 * len % TWO32;
    var carry := if low < bits then 1 else 0;
    LowAndCarry(c0, bits);
    LengthParts(len);
    SmallModulo(c1);
    PairModulo(c1 + carry + len / 0x2000_0000, low);
    HighPart(c1, carry, len);
    PairsDiffer(high, (c1 + carry + len / 0x2000_0000) % TWO32, low);
  }

  lemma LowAndCarry(c0: u32, bits: u32)
    ensures var low := (c0 + bits) % TWO32;
            c0 + bits == (if low < bits then 1 else 0) * TWO32 + low
  {}

  lemma PairsDiffer(x: u32, y: u32, low: u32)
    ensures x * TWO32 + low == y * TWO32 + low <==> x == y
  {}

  lemma LengthParts(len: u32)
    ensures 8 * len == len / 0x2000_0000 * TWO32 + 8 * len % TWO32
  {}

  lemma PairModulo(top: nat, low: u32)
    ensures (top * TWO32 + low) % TWO64 == top % TWO32 * TWO32 + low
  {
    assert top * TWO32 + low == top / TWO32 * TWO64 + top % TWO32 * TWO32 + low;
  }

  lemma HighPart(c1: u32, carry: nat, len: u32)
    requires carry <= 1
    ensures ((c1 + carry) % TWO32 + SignedShift(len)) % TWO32 == (c1 + carry + len / 0x2000_0000) % TWO32
       <==> len < 0x8000_0000
  {}

  lemma BitsModulo(c1: u32, c0: u32, n: nat)
    requires c1 * TWO32 + c0 == 8 * n % TWO64
    ensures c0 / 8 % 64 == n % 64
  {
    ShiftedBits(c1, c0, n, 8 * n / TWO64);
  }

  lemma ShiftedBits(c1: u32, c0: u32, n: nat, q: nat)
    requires 8 * n == q * TWO64 + c1 * TWO32 + c0
    ensures c0 / 8 % 64 == n % 64
  {
    var k := q * 0x80_0000_0000_0000 + c1 * 0x80_0000;
    EighthOf(c0, n - 64 * k);
    WholeBlocksLess(n, k);
  }

  lemma EighthOf(x: int, y: int)
    requires x == 8 * y
    ensures x / 8 == y
  {}

  lemma WholeBlocksLess(n: nat, k: int)
    ensures (n - 64 * k) % 64 == n % 64
  {}

  /** Whole blocks from `from` up to `to` hold the last words of their schedules and nothing else
      has changed. */
  ghost predicate SpentTo(was: seq<byte>, now: seq<byte>, from: nat, to: nat) {
    && from <= to <= |was| == |now| && now[..from] == was[..from] && now[to..] == was[to..]
    && forall q :: 0 <= q && from + 64 * q + 64 <= to ==>
         Window(View(now, from + 64 * q), WordsBE(was[from + 64 * q..from + 64 * q + 64]), 80)
  }

  /** What `SHA1_Update` leaves in the caller's memory when `j` bytes are in the buffer before. */
  ghost predicate Spent(was: seq<byte>, now: seq<byte>, j: nat)
    requires j < 64
  {
    if j + |was| < 64 then now == was
    else SpentTo(was, now, 64 - j, |was| - (j + |was|) % 64)
  }

  /** The bytes that complete the buffer and those kept in it stay as they were. */
  lemma SpentBytes(was: seq<byte>, now: seq<byte>, j: nat, i: nat)
    requires j < 64 && Spent(was, now, j) && i < |was| && (i < 64 - j || i >= |was| - (j + |was|) % 64)
    ensures |now| == |was| && now[i] == was[i]
  {
    if j + |was| >= 64 {
      var from, to := 64 - j, |was| - (j + |was|) % 64;
      assert i < from ==> now[i] == now[..from][i] && was[i] == was[..from][i];
      assert i >= to ==> now[i] == now[to..][i - to] && was[i] == was[to..][i - to];
    }
  }

  /** Each whole block of the data ends as words 64 to 79 of its own schedule, in host order. */
  lemma SpentWords(was: seq<byte>, now: seq<byte>, j: nat, p: nat, k: nat)
    requires j < 64 <= j + |was| && Spent(was, now, j)
    requires p >= 64 - j && (p + j) % 64 == 0 && p + 64 <= |was| && k < 16
    ensures |now| == |was| && LoadLE(now[p + 4 * k..p + 4 * k + 4]) == W(WordsBE(was[p..p + 64]), 64 + k)
  {
    hide LoadLE, W, WordsBE, Window;
    var q := (p + j) / 64 - 1;
    WholeBlockFits(j, |was|, p, q);
    assert Window(View(now, 64 - j + 64 * q), WordsBE(was[64 - j + 64 * q..64 - j + 64 * q + 64]), 80);
    LastOfWindow(View(now, p), WordsBE(was[p..p + 64]), k);
  }

  lemma LastOfWindow(v: Block, m: Block, k: nat)
    requires Window(v, m, 80) && k < 16
    ensures v[k] == W(m, 64 + k)
  {
    hide W;
    assert (64 + k) % 16 == k;
  }

  lemma WholeBlockFits(j: nat, n: nat, p: nat, q: int)
    requires j < 64 && p + 64 <= n && (p + j) % 64 == 0 && p >= 64 - j && q == (p + j) / 64 - 1
    ensures q >= 0 && p == 64 - j + 64 * q && p + 64 <= n - (j + n) % 64
  {
    assert p + j == 64 * (q + 1);
    var m := (j + n) / 64;
    assert m >= q + 2;
  }

  lemma SpentStep(was: seq<byte>, x: seq<byte>, y: seq<byte>, from: nat, to: nat)
    requires SpentTo(was, x, from, to) && (to - from) % 64 == 0 && Outside(x, y, to)
    requires Window(View(y, to), WordsBE(was[to..to + 64]), 80)
    ensures SpentTo(was, y, from, to + 64)
  {
    hide Window, WordsBE, LoadLE;
    forall q | 0 <= q && from + 64 * q + 64 <= to + 64
      ensures Window(View(y, from + 64 * q), WordsBE(was[from + 64 * q..from + 64 * q + 64]), 80)
    {
      var p := from + 64 * q;
      if p + 64 <= to {
        SameView(x, y, p, to);
      } else {
        assert p == to;
      }
    }
  }

  lemma SameView(x: seq<byte>, y: seq<byte>, p: nat, to: nat)
    requires p + 64 <= to <= |x| == |y| && x[..to] == y[..to]
    ensures View(x, p) == View(y, p)
  {
    hide LoadLE;
    forall k | 0 <= k < 16 ensures View(x, p)[k] == View(y, p)[k] {
      SlicePrefix(x, to, p + 4 * k);
      SlicePrefix(y, to, p + 4 * k);
    }
  }

  lemma SlicePrefix(s: seq<byte>, to: nat, a: nat)
    requires a + 4 <= to <= |s|
    ensures s[..to][a..a + 4] == s[a..a + 4]
  {}

  /** `n >> 8 * j`. */
  function ShiftRight8(n: u32, j: nat): u32
    requires j < 4
  {
    if j == 0 then n else if j == 1 then n / 0x100 else if j == 2 then n / 0x1_0000 else n / 0x100_0000
  }

  lemma CountDigits(c1: u32, c0: u32, n: nat)
    requires c1 * TWO32 + c0 == 8 * n % TWO64
    ensures forall i :: 0 <= i < 8 ==>
      Digits(8 * n, 8)[i] == LowByte(ShiftRight8(if i >= 4 then c0 else c1, 3 - i % 4))
  {
    hide LowByte, Digits;
    Wrap64(8 * n);
    Halves(c1, c0);
    Digits4(c1);
    Digits4(c0);
  }

  /** Data too short to hold a whole block after the buffer is full is left as it was. */
  lemma ShortKept(j: nat, was: seq<byte>)
    requires j < 64 && j + |was| < 128
    ensures forall now :: Spent(was, now, j) ==> now == was
  {
    forall now | Spent(was, now, j) ensures now == was {
      if j + |was| >= 64 {
        assert |was| - (j + |was|) % 64 == 64 - j;
        assert now == now[..64 - j] + now[64 - j..] && was == was[..64 - j] + was[64 - j..];
      }
    }
  }

  class Sha1Ctx {
    var state: Hash
    var count0: u32
    var count1: u32
    const buffer: array<byte>
    /** The bytes hashed since `Init`. */
    ghost var msg: seq<byte>

    ghost predicate Valid()
      reads this, buffer
    {
      buffer.Length == 64 && state == Chain(Done(msg)) && buffer[..|Rest(msg)|] == Rest(msg) &&
      count1 * TWO32 + count0 == 8 * |msg| % TWO64
    }

    constructor ()
      ensures buffer.Length == 64 && fresh(buffer)
    {
      buffer := new byte[64];
      state, count0, count1, msg := Hash(0, 0, 0, 0, 0), 0, 0, [];
    }

    method Init()
      requires buffer.Length == 64
      modifies this
      ensures Valid() && msg == []
    {
      hide Chain, Done, Rest;
      NothingDone();
      state := Hash(0x6745_2301, 0xefcd_ab89, 0x98ba_dcfe, 0x1032_5476, 0xc3d2_e1f0);
      count0, count1 := 0, 0;
      msg := [];
    }

    method Rounds0To19(mem: array<byte>, base: nat, v: Hash, ghost h: Hash, ghost m: Block, ghost was: seq<byte>)
      returns (r: Hash)
      requires base + 64 <= mem.Length && Outside(was, mem[..], base)
      requires InPlace(View(mem[..], base), m, 0) && v == Rounds(h, m, 0)
      modifies mem
      ensures InPlace(View(mem[..], base), m, 20) && r == Rounds(h, m, 20) && Outside(was, mem[..], base)
    {
      hide View, InPlace, Rounds, Outside;
      var a, b, c, d, e := v.a, v.b, v.c, v.d, v.e;
      e, b := R0(mem, base, a, b, c, d, e, 0, h, m, was);
      d, a := R0(mem, base, e, a, b, c, d, 1, h, m, was);
      c, e := R0(mem, base, d, e, a, b, c, 2, h, m, was);
      b, d := R0(mem, base, c, d, e, a, b, 3, h, m, was);
      a, c := R0(mem, base, b, c, d, e, a, 4, h, m, was);
      e, b := R0(mem, base, a, b, c, d, e, 5, h, m, was);
      d, a := R0(mem, base, e, a, b, c, d, 6, h, m, was);
      c, e := R0(mem, base, d, e, a, b, c, 7, h, m, was);
      b, d := R0(mem, base, c, d, e, a, b, 8, h, m, was);
      a, c := R0(mem, base, b, c, d, e, a, 9, h, m, was);
      e, b := R0(mem, base, a, b, c, d, e, 10, h, m, was);
      d, a := R0(mem, base, e, a, b, c, d, 11, h, m, was);
      c, e := R0(mem, base, d, e, a, b, c, 12, h, m, was);
      b, d := R0(mem, base, c, d, e, a, b, 13, h, m, was);
      a, c := R0(mem, base, b, c, d, e, a, 14, h, m, was);
      e, b := R0(mem, base, a, b, c, d, e, 15, h, m, was);
      d, a := R1(mem, base, e, a, b, c, d, 16, h, m, was);
      c, e := R1(mem, base, d, e, a, b, c, 17, h, m, was);
      b, d := R1(mem, base, c, d, e, a, b, 18, h, m, was);
      a, c := R1(mem, base, b, c, d, e, a, 19, h, m, was);
      r := Hash(a, b, c, d, e);
    }

    method Rounds20To39(mem: array<byte>, base: nat, v: Hash, ghost h: Hash, ghost m: Block, ghost was: seq<byte>)
      returns (r: Hash)
      requires base + 64 <= mem.Length && Outside(was, mem[..], base)
      requires InPlace(View(mem[..], base), m, 20) && v == Rounds(h, m, 20)
      modifies mem
      ensures InPlace(View(mem[..], base), m, 40) && r == Rounds(h, m, 40) && Outside(was, mem[..], base)
    {
      hide View, InPlace, Rounds, Outside;
      var a, b, c, d, e := v.a, v.b, v.c, v.d, v.e;
      e, b := R2(mem, base, a, b, c, d, e, 20, h, m, was);
      d, a := R2(mem, base, e, a, b, c, d, 21, h, m, was);
      c, e := R2(mem, base, d, e, a, b, c, 22, h, m, was);
      b, d := R2(mem, base, c, d, e, a, b, 23, h, m, was);
      a, c := R2(mem, base, b, c, d, e, a, 24, h, m, was);
      e, b := R2(mem, base, a, b, c, d, e, 25, h, m, was);
      d, a := R2(mem, base, e, a, b, c, d, 26, h, m, was);
      c, e := R2(mem, base, d, e, a, b, c, 27, h, m, was);
      b, d := R2(mem, base, c, d, e, a, b, 28, h, m, was);
      a, c := R2(mem, base, b, c, d, e, a, 29, h, m, was);
      e, b := R2(mem, base, a, b, c, d, e, 30, h, m, was);
      d, a := R2(mem, base, e, a, b, c, d, 31, h, m, was);
      c, e := R2(mem, base, d, e, a, b, c, 32, h, m, was);
      b, d := R2(mem, base, c, d, e, a, b, 33, h, m, was);
      a, c := R2(mem, base, b, c, d, e, a, 34, h, m, was);
      e, b := R2(mem, base, a, b, c, d, e, 35, h, m, was);
      d, a := R2(mem, base, e, a, b, c, d, 36, h, m, was);
      c, e := R2(mem, base, d, e, a, b, c, 37, h, m, was);
      b, d := R2(mem, base, c, d, e, a, b, 38, h, m, was);
      a, c := R2(mem, base, b, c, d, e, a, 39, h, m, was);
      r := Hash(a, b, c, d, e);
    }

    method Rounds40To59(mem: array<byte>, base: nat, v: Hash, ghost h: Hash, ghost m: Block, ghost was: seq<byte>)
      returns (r: Hash)
      requires base + 64 <= mem.Length && Outside(was, mem[..], base)
      requires InPlace(View(mem[..], base), m, 40) && v == Rounds(h, m, 40)
      modifies mem
      ensures InPlace(View(mem[..], base), m, 60) && r == Rounds(h, m, 60) && Outside(was, mem[..], base)
    {
      hide View, InPlace, Rounds, Outside;
      var a, b, c, d, e := v.a, v.b, v.c, v.d, v.e;
      e, b := R3(mem, base, a, b, c, d, e, 40, h, m, was);
      d, a := R3(mem, base, e, a, b, c, d, 41, h, m, was);
      c, e := R3(mem, base, d, e, a, b, c, 42, h, m, was);
      b, d := R3(mem, base, c, d, e, a, b, 43, h, m, was);
      a, c := R3(mem, base, b, c, d, e, a, 44, h, m, was);
      e, b := R3(mem, base, a, b, c, d, e, 45, h, m, was);
      d, a := R3(mem, base, e, a, b, c, d, 46, h, m, was);
      c, e := R3(mem, base, d, e, a, b, c, 47, h, m, was);
      b, d := R3(mem, base, c, d, e, a, b, 48, h, m, was);
      a, c := R3(mem, base, b, c, d, e, a, 49, h, m, was);
      e, b := R3(mem, base, a, b, c, d, e, 50, h, m, was);
      d, a := R3(mem, base, e, a, b, c, d, 51, h, m, was);
      c, e := R3(mem, base, d, e, a, b, c, 52, h, m, was);
      b, d := R3(mem, base, c, d, e, a, b, 53, h, m, was);
      a, c := R3(mem, base, b, c, d, e, a, 54, h, m, was);
      e, b := R3(mem, base, a, b, c, d, e, 55, h, m, was);
      d, a := R3(mem, base, e, a, b, c, d, 56, h, m, was);
      c, e := R3(mem, base, d, e, a, b, c, 57, h, m, was);
      b, d := R3(mem, base, c, d, e, a, b, 58, h, m, was);
      a, c := R3(mem, base, b, c, d, e, a, 59, h, m, was);
      r := Hash(a, b, c, d, e);
    }

    method Rounds60To79(mem: array<byte>, base: nat, v: Hash, ghost h: Hash, ghost m: Block, ghost was: seq<byte>)
      returns (r: Hash)
      requires base + 64 <= mem.Length && Outside(was, mem[..], base)
      requires InPlace(View(mem[..], base), m, 60) && v == Rounds(h, m, 60)
      modifies mem
      ensures InPlace(View(mem[..], base), m, 80) && r == Rounds(h, m, 80) && Outside(was, mem[..], base)
    {
      hide View, InPlace, Rounds, Outside;
      var a, b, c, d, e := v.a, v.b, v.c, v.d, v.e;
      e, b := R4(mem, base, a, b, c, d, e, 60, h, m, was);
      d, a := R4(mem, base, e, a, b, c, d, 61, h, m, was);
      c, e := R4(mem, base, d, e, a, b, c, 62, h, m, was);
      b, d := R4(mem, base, c, d, e, a, b, 63, h, m, was);
      a, c := R4(mem, base, b, c, d, e, a, 64, h, m, was);
      e, b := R4(mem, base, a, b, c, d, e, 65, h, m, was);
      d, a := R4(mem, base, e, a, b, c, d, 66, h, m, was);
      c, e := R4(mem, base, d, e, a, b, c, 67, h, m, was);
      b, d := R4(mem, base, c, d, e, a, b, 68, h, m, was);
      a, c := R4(mem, base, b, c, d, e, a, 69, h, m, was);
      e, b := R4(mem, base, a, b, c, d, e, 70, h, m, was);
      d, a := R4(mem, base, e, a, b, c, d, 71, h, m, was);
      c, e := R4(mem, base, d, e, a, b, c, 72, h, m, was);
      b, d := R4(mem, base, c, d, e, a, b, 73, h, m, was);
      a, c := R4(mem, base, b, c, d, e, a, 74, h, m, was);
      e, b := R4(mem, base, a, b, c, d, e, 75, h, m, was);
      d, a := R4(mem, base, e, a, b, c, d, 76, h, m, was);
      c, e := R4(mem, base, d, e, a, b, c, 77, h, m, was);
      b, d := R4(mem, base, c, d, e, a, b, 78, h, m, was);
      a, c := R4(mem, base, b, c, d, e, a, 79, h, m, was);
      r := Hash(a, b, c, d, e);
    }

    /** Hash the 64 bytes at `base` and leave the last sixteen words of their schedule there. */
    method Transform(mem: array<byte>, base: nat)
      requires base + 64 <= mem.Length
      modifies this`state, mem
      ensures state == Compress(old(state), WordsBE(old(mem[base..base + 64])))
      ensures Outside(old(mem[..]), mem[..], base)
      ensures Window(View(mem[..], base), WordsBE(old(mem[base..base + 64])), 80)
    {
      hide View, WordsBE, Window, Plus;
      ghost var was, m: Block := mem[..], WordsBE(mem[base..base + 64]);
      RawBlock(mem[..], base);
      assert mem[..][base..base + 64] == mem[base..base + 64];
      var r := Rounds0To19(mem, base, state, state, m, was);
      r := Rounds20To39(mem, base, r, state, m, was);
      r := Rounds40To59(mem, base, r, state, m, was);
      r := Rounds60To79(mem, base, r, state, m, was);
      state := Plus(state, r);
    }

    /** Absorb the caller's bytes. Those that complete the buffer and those kept in it are left as
        they were; every whole block between them is replaced by the end of its own schedule. */
    method Update(data: array<byte>)
      requires Valid() && data != buffer && data.Length < 0x8000_0000
      modifies this, buffer, data
      ensures Valid() && msg == old(msg) + old(data[..])
      ensures Spent(old(data[..]), data[..], |old(msg)| % 64)
    {
      hide Compress, Chain, Done, Rest, SpentTo;
      ghost var was, fed := data[..], msg;
      var len := data.Length;
      BitsModulo(count1, count0, |msg|);
      var j := count0 / 8 % 64;
      Count(len);
      ghost var counts := (count1, count0);
      var i := 0;
      if j + len > 63 {
        i := FillAndHash(j, data, fed);
        fed := msg + was[..i];
        j := 0;
      }
      Keep(j, data, i, fed);
      assert fed + was[i..] == msg + was;
      msg := msg + was;
    }

    /** The branch that completes the buffer and then hashes the whole blocks of the data. */
    method FillAndHash(j: nat, data: array<byte>, ghost fed: seq<byte>) returns (i: nat)
      requires buffer.Length == 64 && data != buffer && j == |Rest(fed)| && j + data.Length > 63
      requires state == Chain(Done(fed)) && buffer[..j] == Rest(fed)
      modifies this`state, buffer, data
      ensures i == data.Length - (j + data.Length) % 64 && SpentTo(old(data[..]), data[..], 64 - j, i)
      ensures data[i..] == old(data[..])[i..]
      ensures |Rest(fed + old(data[..i]))| == 0 && state == Chain(Done(fed + old(data[..i])))
    {
      hide Compress, Chain, Done, Rest, Window, View, WordsBE;
      ghost var was := data[..];
      Fill(j, data, 64 - j, fed);
      assert was == data[..] && was[..64 - j] == data[..64 - j];
      i := HashBlocks(data, 64 - j, fed + was[..64 - j]);
      LastStop(j, data.Length, i);
      assert fed + was[..64 - j] + was[64 - j..i] == fed + was[..i];
    }

    lemma LastStop(j: nat, len: nat, i: nat)
      requires j < 64 && j + len > 63 && 64 - j <= i <= len < i + 64 && (i - (64 - j)) % 64 == 0
      ensures i == len - (j + len) % 64
    {
      var q := (i - (64 - j)) / 64;
      assert j + len == 64 * (q + 1) + (len - i);
    }

    /** The loop over the whole blocks of the data. */
    method HashBlocks(data: array<byte>, from: nat, ghost fed: seq<byte>) returns (i: nat)
      requires from <= data.Length && |Rest(fed)| == 0 && state == Chain(Done(fed))
      modifies this`state, data
      ensures from <= i <= data.Length < i + 64 && (i - from) % 64 == 0
      ensures SpentTo(old(data[..]), data[..], from, i)
      ensures |Rest(fed + old(data[..])[from..i])| == 0 && state == Chain(Done(fed + old(data[..])[from..i]))
    {
      hide Compress, Chain, Done, Rest, Window, View, WordsBE;
      ghost var was := data[..];
      i := from;
      assert fed + was[from..from] == fed;
      while i + 63 < data.Length
        invariant from <= i <= data.Length && (i - from) % 64 == 0
        invariant SpentTo(was, data[..], from, i)
        invariant |Rest(fed + was[from..i])| == 0 && state == Chain(Done(fed + was[from..i]))
      {
        ghost var now := data[..];
        TransformNext(data, i, was, fed + was[from..i]);
        SpentStep(was, now, data[..], from, i);
        assert fed + was[from..i] + was[i..i + 64] == fed + was[from..i + 64];
        i := i + 64;
      }
    }

    method Count(len: u32)
      requires count1 * TWO32 + count0 == 8 * |msg| % TWO64 && len < 0x8000_0000
      modifies this`count0, this`count1
      ensures count1 * TWO32 + count0 == 8 * (|msg| + len) % TWO64
    {
      CountExact(count1, count0, len);
      ModAdd64(8 * |msg|, 8 * len);
      count0 := (count0 + 8 * len % TWO32) % TWO32;
      if count0 < 8 * len % TWO32 {
        count1 := (count1 + 1) % TWO32;
      }
      count1 := (count1 + SignedShift(len)) % TWO32;
    }

    /** Complete the buffer with the first `i` bytes of the data and hash it. */
    method Fill(j: nat, data: array<byte>, i: nat, ghost fed: seq<byte>)
      requires buffer.Length == 64 && data != buffer && j == |Rest(fed)| && i <= data.Length && j + i == 64
      requires state == Chain(Done(fed)) && buffer[..j] == Rest(fed)
      modifies this`state, buffer
      ensures |Rest(fed + data[..i])| == 0 && state == Chain(Done(fed + data[..i]))
    {
      hide Compress, Chain, Done, Rest, WordsBE, Window, View;
      Copy(buffer, j, data[..i]);
      assert buffer[..] == buffer[0..0 + 64] == Rest(fed) + data[..i];
      FeedBlock(fed, data[..i]);
      Transform(buffer, 0);
    }

    /** Hash a whole block of the data, still as the caller left it, and overwrite it. */
    method TransformNext(data: array<byte>, i: nat, ghost was: seq<byte>, ghost fed: seq<byte>)
      requires i + 64 <= data.Length == |was| && data[i..] == was[i..]
      requires |Rest(fed)| == 0 && state == Chain(Done(fed))
      modifies this`state, data
      ensures |Rest(fed + was[i..i + 64])| == 0 && state == Chain(Done(fed + was[i..i + 64]))
      ensures Outside(old(data[..]), data[..], i) && Window(View(data[..], i), WordsBE(was[i..i + 64]), 80)
    {
      hide Compress, Chain, Done, Rest, WordsBE, Window, View;
      ghost var block := was[i..i + 64];
      assert data[i..i + 64] == data[i..][..64] == was[i..][..64] == block;
      FeedBlock(fed, block);
      assert Rest(fed) + block == block;
      Transform(data, i);
    }

    /** Keep the bytes from `i` on, which do not complete a block. */
    method Keep(j: nat, data: array<byte>, i: nat, ghost fed: seq<byte>)
      requires buffer.Length == 64 && data != buffer && j == |Rest(fed)|
      requires i <= data.Length && j + (data.Length - i) < 64
      requires state == Chain(Done(fed)) && buffer[..j] == Rest(fed)
      modifies buffer
      ensures state == Chain(Done(fed + data[i..])) && buffer[..|Rest(fed + data[i..])|] == Rest(fed + data[i..])
    {
      hide Compress, Chain, Done, Rest;
      Copy(buffer, j, data[i..]);
      FeedPartial(fed, data[i..]);
    }

    /** The count of bits, cut into bytes and stored apart from the counters. */
    method SaveCount(finalcount: array<byte>)
      requires finalcount.Length == 8 && count1 * TWO32 + count0 == 8 * |msg| % TWO64
      modifies finalcount
      ensures finalcount[..] == Digits(8 * |msg|, 8)
    {
      hide LowByte, Digits;
      CountDigits(count1, count0, |msg|);
      ghost var all := Digits(8 * |msg|, 8);
      for i := 0 to 8
        invariant finalcount[..i] == all[..i]
      {
        finalcount[i] := LowByte(ShiftRight8(if i >= 4 then count0 else count1, 3 - i % 4));
        assert finalcount[..i + 1] == finalcount[..i] + [finalcount[i]];
      }
    }

    method Final(digest: array<byte>)
      requires Valid() && digest.Length >= 20 && digest != buffer
      modifies this, buffer, digest
      ensures digest[..20] == Sha1(old(msg))
    {
      hide Valid, Padded, Chain, Digest;
      ghost var m := msg;
      var finalcount := new byte[8];
      assert count1 * TWO32 + count0 == 8 * |msg| % TWO64 by { CountsOfValid(); }
      SaveCount(finalcount);
      PadToLength();
      assert finalcount[..] == Digits(8 * |m|, 8);
      Update(finalcount);
      assert msg == Padded(m) by { PaddingParts(m); }
      Sha1OfFed(m);
      StateOfValid();
      WriteDigest(state, digest);
      for i := 0 to 64
        invariant digest[..20] == Sha1(m)
      {
        buffer[i] := 0;
      }
      state := Hash(0, 0, 0, 0, 0);
      count0, count1 := 0, 0;
    }

    lemma CountsOfValid()
      requires Valid()
      ensures count1 * TWO32 + count0 == 8 * |msg| % TWO64
    {}

    lemma StateOfValid()
      requires Valid()
      ensures buffer.Length == 64 && state == Chain(Done(msg))
    {}

    /** Feed the marker and zeros until eight bytes are missing from a block. */
    method PadToLength()
      requires Valid()
      modifies this, buffer
      ensures Valid() && msg == old(msg) + ([0x80] + Zeros(ZeroCount(|old(msg)|)))
    {
      hide Valid, ZeroCount, Spent;
      ghost var m, z := msg, 0;
      var marker, zero := new byte[] [0x80], new byte[] [0];
      Update(marker);
      CountsOfValid();
      BitsModulo(count1, count0, |msg|);
      while count0 / 8 % 64 != 56
        invariant Valid() && z <= ZeroCount(|m|) && msg == m + ([0x80] + Zeros(z)) && zero[..] == [0]
        invariant count0 / 8 % 64 == |msg| % 64
        decreases ZeroCount(|m|) - z
      {
        ZerosReach56(|m|, z);
        ShortKept(|msg| % 64, zero[..]);
        Update(zero);
        z := z + 1;
        assert Zeros(z) == Zeros(z - 1) + [0];
        CountsOfValid();
        BitsModulo(count1, count0, |msg|);
      }
      ZerosReach56(|m|, z);
    }
  }
}
