/** Bytes, 32-bit words and the memory of a little-endian host.

    A C object that the programs access both as bytes and as 32-bit words is an `array<byte>`;
    `View` reads sixteen words of it and `StoreWord` overwrites one of them. */
module Words {
  import opened Common

  type byte = bv8
  type word = bv32

  function Rotl(x: word, n: bv8): word
    requires n <= 32
  {
    (x << n) | (x >> (32 - n))
  }

  /** The word whose bytes, most significant first, are `b`. */
  function LoadBE(b: seq<byte>): word
    requires |b| == 4
  {
    (b[0] as word << 24) | (b[1] as word << 16) | (b[2] as word << 8) | b[3] as word
  }

  /** The word that a little-endian host reads from four bytes of memory. */
  function LoadLE(b: seq<byte>): word
    requires |b| == 4
  {
    b[0] as word | (b[1] as word << 8) | (b[2] as word << 16) | (b[3] as word << 24)
  }

  /** Byte `k` of a word, counted from the most significant one. */
  function ByteOf(w: word, k: nat): byte
    requires k < 4
  {
    if k == 0 then (w >> 24) as byte
    else if k == 1 then ((w >> 16) & 0xff) as byte
    else if k == 2 then ((w >> 8) & 0xff) as byte
    else (w & 0xff) as byte
  }

  function BytesBE(w: word): (r: seq<byte>)
    ensures |r| == 4
  {
    [ByteOf(w, 0), ByteOf(w, 1), ByteOf(w, 2), ByteOf(w, 3)]
  }

  function BytesLE(w: word): seq<byte> { [ByteOf(w, 3), ByteOf(w, 2), ByteOf(w, 1), ByteOf(w, 0)] }

  function Bswap(w: word): word {
    (w << 24) | ((w << 8) & 0x00ff_0000) | ((w >> 8) & 0x0000_ff00) | (w >> 24)
  }

  /** The low eight bits of a number, as C's conversion to `uint8_t` keeps them. */
  function LowByte(n: nat): byte { Bits(n % 256, 8) }

  /** The `k` low bits of a number. */
  function Bits(n: nat, k: nat): byte {
    if k == 0 then 0 else (Bits(n / 2, k - 1) << 1) | (if n % 2 == 1 then 1 else 0)
  }

  function Ones(k: nat): byte
    requires k <= 7
  {
    [0x00, 0x01, 0x03, 0x07, 0x0f, 0x1f, 0x3f, 0x7f][k]
  }

  function Two(k: nat): nat { if k == 0 then 1 else 2 * Two(k - 1) }

  lemma {:induction false} BitsBelow(n: nat, k: nat)
    requires k <= 7
    ensures Bits(n, k) <= Ones(k) <= 0x7f
  {
    if k > 0 {
      BitsBelow(n / 2, k - 1);
    }
  }

  lemma {:induction false} BitsInjective(v: nat, w: nat, k: nat)
    requires k <= 8 && v < Two(k) && w < Two(k) && Bits(v, k) == Bits(w, k)
    ensures v == w
  {
    if k > 0 {
      BitsBelow(v / 2, k - 1);
      BitsBelow(w / 2, k - 1);
      BitsInjective(v / 2, w / 2, k - 1);
    }
  }

  lemma LowByteDetermines(x: nat, y: nat)
    requires LowByte(x) == LowByte(y)
    ensures x % 256 == y % 256
  {
    BitsInjective(x % 256, y % 256, 8);
  }

  /** The `k` low bytes of a number, most significant first. */
  function Digits(n: nat, k: nat): (r: seq<byte>)
    ensures |r| == k
  {
    if k == 0 then [] else Digits(n / 256, k - 1) + [LowByte(n)]
  }

  function Pow256(k: nat): nat { if k == 0 then 1 else 256 * Pow256(k - 1) }

  lemma {:induction false} DigitsInjective(x: nat, y: nat, k: nat)
    requires Digits(x, k) == Digits(y, k) && x < Pow256(k) && y < Pow256(k)
    ensures x == y
  {
    if k > 0 {
      var a, b := Digits(x, k), Digits(y, k);
      assert a[..k - 1] == Digits(x / 256, k - 1) && b[..k - 1] == Digits(y / 256, k - 1);
      assert a[k - 1] == LowByte(x) && b[k - 1] == LowByte(y);
      LowByteDetermines(x, y);
      DigitsInjective(x / 256, y / 256, k - 1);
    }
  }

  lemma PowStep(q: nat, k: nat)
    requires k > 0
    ensures q * Pow256(k) == 256 * (q * Pow256(k - 1))
  {}

  lemma {:induction false} DigitsSplit(h: nat, l: nat, k: nat, j: nat)
    requires l < Pow256(j)
    ensures Digits(h * Pow256(j) + l, k + j) == Digits(h, k) + Digits(l, j)
  {
    hide Bits;
    if j > 0 {
      var t := h * Pow256(j - 1);
      PowStep(h, j);
      LowDigit(t, l);
      DigitsSplit(h, l / 256, k, j - 1);
    }
  }

  lemma LowDigit(t: nat, l: nat)
    ensures (256 * t + l) / 256 == t + l / 256 && LowByte(256 * t + l) == LowByte(l)
  {}

  /** Multiples of `Pow256(k)` do not show in the `k` low bytes. */
  lemma {:induction false} DigitsWrap(n: nat, q: nat, k: nat)
    ensures Digits(n + q * Pow256(k), k) == Digits(n, k)
  {
    if k > 0 {
      var t := q * Pow256(k - 1);
      PowStep(q, k);
      LowDigit(t, n);
      DigitsWrap(n / 256, q, k - 1);
    }
  }

  lemma Digits4(n: nat)
    ensures Digits(n, 4) == [LowByte(n / 0x100_0000), LowByte(n / 0x1_0000), LowByte(n / 0x100), LowByte(n)]
  {
    hide LowByte;
    var n1, n2, n3 := n / 0x100, n / 0x1_0000, n / 0x100_0000;
    assert n1 / 256 == n2 && n2 / 256 == n3;
    assert Digits(n3, 1) == Digits(n3 / 256, 0) + [LowByte(n3)];
    assert Digits(n2, 2) == Digits(n3, 1) + [LowByte(n2)];
    assert Digits(n1, 3) == Digits(n2, 2) + [LowByte(n1)];
  }

  lemma Pow256Of4()
    ensures Pow256(4) == TWO32
  {
    assert Pow256(1) == 256;
    assert Pow256(2) == 0x1_0000;
    assert Pow256(3) == 0x100_0000;
  }

  lemma Pow256Of8()
    ensures Pow256(8) == TWO64
  {
    Pow256Of4();
    assert Pow256(5) == 256 * Pow256(4);
    assert Pow256(6) == 256 * Pow256(5);
    assert Pow256(7) == 256 * Pow256(6);
  }

  /** A 64-bit number is its two 32-bit halves. */
  lemma Halves(high: nat, low: u32)
    ensures Digits(high * TWO32 + low, 8) == Digits(high, 4) + Digits(low, 4)
  {
    Pow256Of4();
    DigitsSplit(high, low, 4, 4);
  }

  lemma Wrap32(n: nat)
    ensures Digits(n % TWO32, 4) == Digits(n, 4)
  {
    hide Digits, Pow256;
    Pow256Of4();
    assert n == n % TWO32 + n / TWO32 * TWO32;
    DigitsWrap(n % TWO32, n / TWO32, 4);
  }

  lemma Wrap64(n: nat)
    ensures Digits(n % TWO64, 8) == Digits(n, 8)
  {
    hide Digits, Pow256;
    Pow256Of8();
    assert n == n % TWO64 + n / TWO64 * TWO64;
    DigitsWrap(n % TWO64, n / TWO64, 8);
  }

  /** The word whose value is the low 32 bits of the number `n`. */
  function WordOf(n: nat): word { LoadBE(Digits(n, 4)) }

  lemma BytesOfLoadBE(b: seq<byte>)
    requires |b| == 4
    ensures BytesBE(LoadBE(b)) == b
  {}

  lemma LoadOfBytes(w: word)
    ensures LoadBE(BytesBE(w)) == w == LoadLE(BytesLE(w))
  {}

  lemma BytesOfLoadLE(b: seq<byte>)
    requires |b| == 4
    ensures BytesLE(LoadLE(b)) == b
  {}

  lemma LoadReversed(x: seq<byte>, y: seq<byte>)
    requires |x| == |y| == 4
    requires x[0] == y[3] && x[1] == y[2] && x[2] == y[1] && x[3] == y[0]
    ensures LoadLE(x) == LoadBE(y)
  {}

  lemma BswapLoads(b: seq<byte>)
    requires |b| == 4
    ensures Bswap(LoadLE(b)) == LoadBE(b) && Bswap(LoadBE(b)) == LoadLE(b)
  {}

  lemma BytesOfSwapped(w: word)
    ensures BytesLE(Bswap(w)) == BytesBE(w)
  {
    LoadOfBytes(w);
    BswapLoads(BytesBE(w));
    BytesOfLoadLE(BytesBE(w));
  }

  lemma SliceOfSlice<T>(s: seq<T>, a: nat, b: nat, c: nat, d: nat)
    requires a <= b <= |s| && c <= d <= b - a
    ensures s[a..b][c..d] == s[a + c..a + d]
  {
    var x, y := s[a..b][c..d], s[a + c..a + d];
    forall i | 0 <= i < d - c ensures x[i] == y[i] {
      assert x[i] == s[a..b][c + i] == s[a + (c + i)];
    }
  }

  /** The big-endian words of a byte string. */
  function WordsBE(s: seq<byte>): (r: seq<word>)
    requires |s| % 4 == 0
    ensures |r| == |s| / 4
  {
    seq(|s| / 4, i requires 0 <= i < |s| / 4 => LoadBE(s[4 * i..4 * i + 4]))
  }

  /** The sixteen words that the host sees in the 64 bytes at `base`. */
  function View(m: seq<byte>, base: nat): (r: seq<word>)
    requires base + 64 <= |m|
    ensures |r| == 16
  {
    seq(16, i requires 0 <= i < 16 => LoadLE(m[base + 4 * i..base + 4 * i + 4]))
  }

  /** Sixteen host words, swapped, are the big-endian words of the same memory. */
  lemma SwappedView(mem: seq<byte>)
    requires |mem| == 64
    ensures forall k :: 0 <= k < 16 ==> Bswap(View(mem, 0)[k]) == WordsBE(mem)[k]
  {
    hide LoadLE, LoadBE, Bswap;
    forall k | 0 <= k < 16 ensures Bswap(View(mem, 0)[k]) == WordsBE(mem)[k] {
      BswapLoads(mem[4 * k..4 * k + 4]);
    }
  }

  method LoadWord(m: array<byte>, base: nat, i: nat) returns (w: word)
    requires base + 64 <= m.Length && i < 16
    ensures w == View(m[..], base)[i]
  {
    var p := base + 4 * i;
    w := LoadLE([m[p], m[p + 1], m[p + 2], m[p + 3]]);
    assert m[..][p..p + 4] == [m[p], m[p + 1], m[p + 2], m[p + 3]];
  }

  lemma ViewStored(was: seq<byte>, now: seq<byte>, base: nat, i: nat, w: word)
    requires base + 64 <= |was| == |now| && i < 16
    requires now[base + 4 * i..base + 4 * i + 4] == BytesLE(w)
    requires forall j :: 0 <= j < |was| && !(base + 4 * i <= j < base + 4 * i + 4) ==> now[j] == was[j]
    ensures View(now, base) == View(was, base)[i := w]
  {
    LoadOfBytes(w);
    hide LoadLE, BytesLE;
    forall k | 0 <= k < 16 && k != i ensures View(now, base)[k] == View(was, base)[k] {
      assert now[base + 4 * k..base + 4 * k + 4] == was[base + 4 * k..base + 4 * k + 4];
    }
  }

  method StoreWord(m: array<byte>, base: nat, i: nat, w: word)
    requires base + 64 <= m.Length && i < 16
    modifies m
    ensures View(m[..], base) == old(View(m[..], base))[i := w]
    ensures m[..base] == old(m[..base]) && m[base + 64..] == old(m[base + 64..])
    ensures var p := base + 4 * i;
            m[..] == old(m[..p]) + BytesLE(w) + old(m[p + 4..])
  {
    hide ByteOf, View;
    var p := base + 4 * i;
    ghost var was := m[..];
    m[p], m[p + 1], m[p + 2], m[p + 3] := ByteOf(w, 3), ByteOf(w, 2), ByteOf(w, 1), ByteOf(w, 0);
    assert m[..][p..p + 4] == BytesLE(w);
    ViewStored(was, m[..], base, i, w);
  }

  /** The bytes of a number stored as a big-endian word by a little-endian host. */
  lemma WordMemory(n: nat)
    ensures BytesLE(Bswap(WordOf(n))) == Digits(n, 4)
  {
    hide Digits;
    BytesOfSwapped(WordOf(n));
    BytesOfLoadBE(Digits(n, 4));
  }

  /** `memcpy` of `src` to the bytes of `dst` from `at` on. */
  method Copy(dst: array<byte>, at: nat, src: seq<byte>)
    requires at + |src| <= dst.Length
    modifies dst
    ensures dst[..] == old(dst[..at]) + src + old(dst[at + |src|..])
  {
    ghost var was := dst[..];
    for i := 0 to |src|
      invariant dst[..at + i] == was[..at] + src[..i] && dst[at + i..] == was[at + i..]
    {
      dst[at + i] := src[i];
      assert dst[..at + i + 1] == dst[..at + i] + [src[i]];
    }
  }
}
