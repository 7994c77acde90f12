/** The twenty output bytes, written one at a time out of the five hash words. */
module DigestOutput {
  import opened Words
  import opened Fips180

  function Part(h: Hash, k: nat): word
    requires k < 5
  {
    if k == 0 then h.a else if k == 1 then h.b else if k == 2 then h.c else if k == 3 then h.d else h.e
  }

  lemma BytesAt(w: word, k: nat)
    requires k < 4
    ensures BytesBE(w)[k] == ByteOf(w, k)
  {}

  lemma DigestByte(h: Hash, i: nat)
    requires i < 20
    ensures Digest(h)[i] == ByteOf(Part(h, i / 4), i % 4)
  {
    hide ByteOf, BytesBE;
    BytesAt(Part(h, i / 4), i % 4);
    var a, b, c, d, e := BytesBE(h.a), BytesBE(h.b), BytesBE(h.c), BytesBE(h.d), BytesBE(h.e);
    var r := a + b + c + d + e;
    assert r == Digest(h);
    if i < 4 {
      assert r[i] == a[i];
    } else if i < 8 {
      assert r[i] == b[i - 4];
    } else if i < 12 {
      assert r[i] == c[i - 8];
    } else if i < 16 {
      assert r[i] == d[i - 12];
    } else {
      assert r[i] == e[i - 16];
    }
  }

  /** The final loop of Gladman, Reid and RFC 3174: byte `i` is cut out of word `i >> 2`. */
  method WriteDigest(h: Hash, out: array<byte>)
    requires out.Length >= 20
    modifies out
    ensures out[..20] == Digest(h) && out[20..] == old(out[20..])
  {
    hide Digest, ByteOf;
    for i := 0 to 20
      invariant out[..i] == Digest(h)[..i] && out[20..] == old(out[20..])
    {
      out[i] := ByteOf(Part(h, i / 4), i % 4);
      DigestByte(h, i);
      assert out[..i + 1] == out[..i] + [out[i]];
    }
  }
}
