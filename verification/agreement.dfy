/** The five programs side by side, each fed a message in pieces of any sizes, as the test program
    main.c feeds them a message byte by byte and at once. */
module Agreement {
  import opened Common
  import opened Words
  import opened Fips180
  import GladmanSha1
  import ReidSha1
  import OryxSha1
  import GoogleSha1
  import Rfc3174
  import Rfc2104

  lemma FlattenStep(chunks: seq<seq<byte>>, i: nat)
    requires i < |chunks|
    ensures Flatten(chunks[..i + 1]) == Flatten(chunks[..i]) + chunks[i]
    ensures chunks[..|chunks|] == chunks
  {
    assert chunks[..i + 1][..i] == chunks[..i];
  }

  lemma {:induction false} FlattenPrefix(chunks: seq<seq<byte>>, i: nat)
    requires i <= |chunks|
    ensures |Flatten(chunks[..i])| <= |Flatten(chunks)|
    decreases |chunks| - i
  {
    if i < |chunks| {
      FlattenStep(chunks, i);
      FlattenPrefix(chunks, i + 1);
    } else {
      assert chunks[..i] == chunks;
    }
  }

  method Gladman(chunks: seq<seq<byte>>) returns (digest: seq<byte>)
    requires forall i :: 0 <= i < |chunks| ==> |chunks[i]| < TWO32
    ensures digest == Sha1(Flatten(chunks))
  {
    hide Flatten, Sha1, GladmanSha1.Context.Valid;
    var ctx := new GladmanSha1.Context();
    ctx.Begin();
    FlattenNothing();
    assert chunks[..0] == [];
    for i := 0 to |chunks|
      invariant fresh(ctx) && fresh(ctx.wbuf) && ctx.Valid() && ctx.msg == Flatten(chunks[..i])
    {
      ctx.HashData(chunks[i]);
      FlattenStep(chunks, i);
    }
    assert chunks[..|chunks|] == chunks;
    var hval := new byte[20];
    ctx.End(hval);
    digest := hval[..20];
  }

  lemma FlattenNothing()
    ensures Flatten([]) == []
  {}

  method Reid(chunks: seq<seq<byte>>) returns (digest: seq<byte>)
    requires forall i :: 0 <= i < |chunks| ==> |chunks[i]| < 0x8000_0000
    ensures digest == Sha1(Flatten(chunks))
  {
    hide Flatten, Sha1, ReidSha1.Sha1Ctx.Valid, ReidSha1.Spent;
    var ctx := new ReidSha1.Sha1Ctx();
    ctx.Init();
    FlattenNothing();
    assert chunks[..0] == [];
    for i := 0 to |chunks|
      invariant fresh(ctx) && fresh(ctx.buffer) && ctx.Valid() && ctx.msg == Flatten(chunks[..i])
    {
      var data := new byte[|chunks[i]|](k requires 0 <= k < |chunks[i]| => chunks[i][k]);
      assert data[..] == chunks[i];
      ctx.Update(data);
      FlattenStep(chunks, i);
    }
    assert chunks[..|chunks|] == chunks;
    var out := new byte[20];
    ctx.Final(out);
    digest := out[..20];
  }

  method Oryx(chunks: seq<seq<byte>>) returns (digest: seq<byte>)
    ensures digest == Sha1(Flatten(chunks))
  {
    hide Flatten, Sha1, OryxSha1.Sha1Context.Valid;
    var ctx := new OryxSha1.Sha1Context();
    ctx.Init();
    FlattenNothing();
    assert chunks[..0] == [];
    for i := 0 to |chunks|
      invariant fresh(ctx) && fresh(ctx.buffer) && ctx.Valid() && ctx.msg == Flatten(chunks[..i])
    {
      ctx.Update(chunks[i]);
      FlattenStep(chunks, i);
    }
    assert chunks[..|chunks|] == chunks;
    var out := new byte[20];
    ctx.Final(out);
    digest := out[..20];
  }

  /** The 32-bit count of bytes is the program's own limit. */
  method Google(chunks: seq<seq<byte>>) returns (digest: seq<byte>)
    requires |Flatten(chunks)| < TWO32
    ensures digest == Sha1(Flatten(chunks))
  {
    hide Flatten, Sha1, GoogleSha1.Sha1Info.Reading, GoogleSha1.Sha1Info.Shape;
    var ctx := new GoogleSha1.Sha1Info();
    ctx.Init();
    FlattenNothing();
    assert chunks[..0] == [];
    for i := 0 to |chunks|
      invariant fresh(ctx) && fresh(ctx.buffer) && ctx.Reading(Flatten(chunks[..i]))
    {
      ctx.Write(chunks[i], Flatten(chunks[..i]));
      FlattenStep(chunks, i);
    }
    assert chunks[..|chunks|] == chunks;
    digest := ctx.Result(Flatten(chunks));
  }

  method Rfc(chunks: seq<seq<byte>>) returns (digest: seq<byte>)
    requires forall i :: 0 <= i < |chunks| ==> |chunks[i]| < TWO32
    requires 8 * |Flatten(chunks)| < TWO64
    ensures digest == Sha1(Flatten(chunks))
  {
    hide Flatten, Sha1, Rfc3174.Sha1Context.Valid;
    var ctx := new Rfc3174.Sha1Context();
    ctx.Reset();
    FlattenNothing();
    assert chunks[..0] == [];
    for i := 0 to |chunks|
      invariant fresh(ctx) && fresh(ctx.block) && ctx.Valid() && ctx.msg == Flatten(chunks[..i])
      invariant ctx.corrupted == 0 && !ctx.computed
    {
      FlattenStep(chunks, i);
      FlattenPrefix(chunks, i + 1);
      var code := ctx.Input(chunks[i]);
      assert chunks[i] == [] ==> Flatten(chunks[..i]) + chunks[i] == Flatten(chunks[..i]);
    }
    assert chunks[..|chunks|] == chunks;
    var out := new byte[20];
    var code := ctx.Result(out);
    digest := out[..20];
  }

  /** One message, cut up in five ways: all five programs give its SHA-1. */
  method AllAgree(gladman: seq<seq<byte>>, reid: seq<seq<byte>>, oryx: seq<seq<byte>>, google: seq<seq<byte>>,
      rfc: seq<seq<byte>>)
    returns (d1: seq<byte>, d2: seq<byte>, d3: seq<byte>, d4: seq<byte>, d5: seq<byte>)
    requires Flatten(gladman) == Flatten(reid) == Flatten(oryx) == Flatten(google) == Flatten(rfc)
    requires |Flatten(oryx)| < TWO32
    requires forall i :: 0 <= i < |reid| ==> |reid[i]| < 0x8000_0000
    ensures d1 == d2 == d3 == d4 == d5 == Sha1(Flatten(oryx))
  {
    hide Flatten, Sha1;
    PieceFits(gladman);
    PieceFits(rfc);
    d1 := Gladman(gladman);
    d2 := Reid(reid);
    d3 := Oryx(oryx);
    d4 := Google(google);
    d5 := Rfc(rfc);
  }

  lemma PieceFits(chunks: seq<seq<byte>>)
    ensures forall i :: 0 <= i < |chunks| ==> |chunks[i]| <= |Flatten(chunks)|
  {
    forall i | 0 <= i < |chunks| ensures |chunks[i]| <= |Flatten(chunks)| {
      FlattenStep(chunks, i);
      FlattenPrefix(chunks, i + 1);
    }
  }

  /** HMAC with the text in pieces. */
  method HmacOf(key: seq<byte>, chunks: seq<seq<byte>>) returns (digest: seq<byte>)
    requires |key| < 0x8000_0000 && 64 + |Flatten(chunks)| < TWO32
    ensures digest == Rfc2104.Hmac(key, Flatten(chunks))
  {
    hide Flatten, Rfc2104.Hmac, GoogleSha1.Sha1Info.Reading, Rfc2104.KeyBlock, Rfc2104.XorWith;
    var ctx := new GoogleSha1.Sha1Info();
    ctx.InitHmac(key);
    ghost var inner := Rfc2104.XorWith(Rfc2104.KeyBlock(key), 0x36);
    FlattenNothing();
    assert chunks[..0] == [] && inner + [] == inner;
    for i := 0 to |chunks|
      invariant fresh(ctx) && fresh(ctx.buffer) && fresh(ctx.keyBuffer) && fresh(ctx.innerHash) && ctx.Shape()
      invariant ctx.keyBuffer[..] == Rfc2104.KeyBlock(key) && ctx.Reading(inner + Flatten(chunks[..i]))
    {
      ctx.Write(chunks[i], inner + Flatten(chunks[..i]));
      FlattenStep(chunks, i);
      assert inner + Flatten(chunks[..i]) + chunks[i] == inner + Flatten(chunks[..i + 1]);
    }
    assert chunks[..|chunks|] == chunks;
    digest := ctx.ResultHmac(key, Flatten(chunks));
  }
}
