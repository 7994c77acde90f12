/** HMAC over SHA-1 as section 2 of RFC 2104 defines it. */
module Rfc2104 {
  import opened Words
  import opened Fips180

  function XorWith(s: seq<byte>, pad: byte): (r: seq<byte>)
    ensures |r| == |s|
    ensures forall i :: 0 <= i < |s| ==> r[i] == s[i] ^ pad
  {
    seq(|s|, i requires 0 <= i < |s| => s[i] ^ pad)
  }

  /** The key as one block: longer keys are hashed first, shorter ones filled with zeros. */
  function KeyBlock(key: seq<byte>): (r: seq<byte>)
    ensures |r| == 64
  {
    var k := if |key| > 64 then Sha1(key) else key;
    k + Zeros(64 - |k|)
  }

  function Hmac(key: seq<byte>, text: seq<byte>): seq<byte> {
    var k := KeyBlock(key);
    Sha1(XorWith(k, 0x5c) + Sha1(XorWith(k, 0x36) + text))
  }

  /** A key of exactly one block is used as it is. */
  lemma BlockIsItsOwnKey(key: seq<byte>)
    requires |key| == 64
    ensures KeyBlock(key) == key
  {
    hide Sha1;
    assert key + Zeros(0) == key;
  }

  /** A key of up to a block stands for itself filled up with zeros. */
  lemma ShortKeyIsFilled(key: seq<byte>, text: seq<byte>)
    requires |key| <= 64
    ensures Hmac(key, text) == Hmac(key + Zeros(64 - |key|), text)
  {
    hide Sha1;
    BlockIsItsOwnKey(key + Zeros(64 - |key|));
  }

  /** A longer key stands for its digest. */
  lemma LongKeyIsHashed(key: seq<byte>, text: seq<byte>)
    requires |key| > 64
    ensures Hmac(key, text) == Hmac(Sha1(key), text)
  {
    hide Sha1;
    assert KeyBlock(key) == KeyBlock(Sha1(key));
  }

  /** For a key of one block, what section 2 of RFC 2104 says, byte by byte: `outer` and `inner` are the key
      with its bytes exclusive-ored. */
  lemma HmacOfBlock(key: seq<byte>, outer: seq<byte>, inner: seq<byte>, text: seq<byte>)
    requires |key| == |outer| == |inner| == 64
    requires forall i :: 0 <= i < 64 ==> outer[i] == key[i] ^ 0x5c && inner[i] == key[i] ^ 0x36
    ensures Hmac(key, text) == Sha1(outer + Sha1(inner + text))
  {
    hide Sha1, KeyBlock;
    BlockIsItsOwnKey(key);
    assert outer == XorWith(key, 0x5c) && inner == XorWith(key, 0x36);
  }
}
