/**
 The header decoders as the library runs them: loops over a decoding context that
 fill a header record and a label state, proved against the walk of Header.dfy.
 */
module HeaderContext {
  import opened Wire
  import opened Cbor
  import opened CborContext
  import opened Header
  import opened HeaderLemmas
  import opened HeaderState
  import opened Bits

  /** The values a header record holds. */
  datatype Fields = Fields(alg: i64, contentType: u64, kid: Option<seq<byte>>, iv: Option<seq<byte>>,
                           partialIv: Option<seq<byte>>, contentTypeUnprotected: bool, x5chain: bool)

  /** A record that held `base`, after the entries `es` of a bucket: every field is the
      one the bucket has, and is unchanged when it has none. */
  function FieldsAfter(s: seq<byte>, es: seq<Entry>, b: Bucket, base: Fields, tol: bool): Fields {
    Fields(
      match AlgField(s, es, tol) { case Some(n) => n case None => base.alg },
      match ContentTypeField(s, es, tol) { case Some(n) => n case None => base.contentType },
      match BstrField(s, es, KID, tol) { case Some(v) => Some(v) case None => base.kid },
      match BstrField(s, es, IV, tol) { case Some(v) => Some(v) case None => base.iv },
      match BstrField(s, es, PARTIAL_IV, tol) { case Some(v) => Some(v) case None => base.partialIv },
      base.contentTypeUnprotected || (b == Unprotected && IntLabel(CONTENT_TYPE) in Labels(es)),
      base.x5chain || IntLabel(X5CHAIN) in Labels(es))
  }

  const BLANK := Fields(0, 0, None, None, None, false, false)

  class Hdr {
    var alg: i64
    var contentType: u64
    var kid: Option<seq<byte>>
    var iv: Option<seq<byte>>
    var partialIv: Option<seq<byte>>
    var contentTypeUnprotected: bool
    var x5chain: bool

    function View(): Fields
      reads this
    {
      Fields(alg, contentType, kid, iv, partialIv, contentTypeUnprotected, x5chain)
    }

    /** A record set to zero. */
    constructor ()
      ensures View() == BLANK
    {
      alg := 0;
      contentType := 0;
      kid := None;
      iv := None;
      partialIv := None;
      contentTypeUnprotected := false;
      x5chain := false;
    }
  }

  // ----- Values -----

  method DecodeAlg(ctx: Decoder, tol: bool) returns (ret: Status, alg: Option<i64>)
    modifies ctx
    ensures ret == AlgValue(ctx.cbuf, old(ctx.idx), tol).Status()
    ensures ret.Success? ==> AlgValue(ctx.cbuf, old(ctx.idx), tol) == Ok(alg, ctx.idx)
  {
    hide DecodeHead, SkipItems;
    alg := None;
    if ctx.idx < |ctx.cbuf| && ctx.PeekType() == TSTR {
      ret := ctx.Skip(tol);
    } else {
      var n;
      ret, n := ctx.DecodeInt(tol);
      if ret.Success? && !InInt32(n) {
        ret := Fail(CoseBadAlg);
      }
      if ret.Success? {
        alg := Some(n);
      }
    }
  }

  method DecodeContentType(ctx: Decoder, tol: bool) returns (ret: Status, contentType: Option<u64>)
    modifies ctx
    ensures ret == ContentTypeValue(ctx.cbuf, old(ctx.idx), tol).Status()
    ensures ret.Success? ==> ContentTypeValue(ctx.cbuf, old(ctx.idx), tol) == Ok(contentType, ctx.idx)
  {
    hide DecodeHead, SkipItems;
    contentType := None;
    if ctx.idx < |ctx.cbuf| && ctx.PeekType() == TSTR {
      ret := ctx.Skip(tol);
    } else {
      var n;
      ret, n := ctx.DecodeUint(tol);
      if ret.Success? && n > INT32_MAX {
        ret := Fail(CoseBadHdr);
      }
      if ret.Success? {
        contentType := Some(n);
      }
    }
  }

  /** The union of the tracking bits of some labels. */
  ghost function BitsOf(crit: seq<i64>): bv32 {
    if crit == [] then 0 else Or(BitsOf(crit[..|crit| - 1]), LabelBit(crit[|crit| - 1]))
  }

  lemma BitsOfNext(crit: seq<i64>, c: i64)
    ensures BitsOf(crit + [c]) == Or(BitsOf(crit), LabelBit(c))
    ensures BitsOf([]) == 0
  {
    hide Or, LabelBit;
    assert (crit + [c])[..|crit|] == crit;
  }

  /** The union of the bits of `crit` holds the labels of `crit`. */
  lemma {:induction false} BitsOfHolds(crit: seq<i64>, n: i64)
    requires forall c :: c in crit ==> Tracked(c)
    ensures InBits(BitsOf(crit), n) <==> n in crit
  {
    hide Or, LabelBit, InBits;
    if crit == [] {
      OnlyTracked(0, n);
    } else {
      var c := crit[|crit| - 1];
      assert crit == crit[..|crit| - 1] + [c];
      BitsOfHolds(crit[..|crit| - 1], n);
      InBitsAfterAdd(BitsOf(crit[..|crit| - 1]), c, n);
    }
  }

  /** `critLabels & ~labelBits` is zero exactly when every critical label has its bit. */
  lemma {:induction false} CritInside(crit: seq<i64>, bits: bv32)
    requires forall c :: c in crit ==> Tracked(c)
    ensures AndNot(BitsOf(crit), bits) == 0 <==> forall c :: c in crit ==> InBits(bits, c)
  {
    hide AndNot, Or, And, LabelBit, Bit;
    if crit == [] {
      NothingInside(bits);
    } else {
      var c := crit[|crit| - 1];
      assert crit == crit[..|crit| - 1] + [c];
      CritInside(crit[..|crit| - 1], bits);
      InsideOr(BitsOf(crit[..|crit| - 1]), LabelBit(c), bits);
      LabelInside(c, bits);
    }
  }

  lemma LabelInside(c: i64, bits: bv32)
    requires Tracked(c)
    ensures AndNot(LabelBit(c), bits) == 0 <==> InBits(bits, c)
  {
    hide AndNot, And, Bit;
    var k: int := if c > 0 then c - 1 else 15 - c;
    if AndNot(Bit(k), bits) == 0 {
      BitInside(k, bits);
    }
    if And(bits, Bit(k)) != 0 {
      BitOutside(k, bits);
    }
  }

  /** The critical labels of a protected bucket, as bits. */
  method DecodeCrit(ctx: Decoder, tol: bool) returns (ret: Status, critLabels: bv32, ghost crit: seq<i64>)
    modifies ctx
    ensures ret == CritValue(ctx.cbuf, old(ctx.idx), tol).Status()
    ensures ret.Success? ==> CritValue(ctx.cbuf, old(ctx.idx), tol) == Ok(crit, ctx.idx)
    ensures critLabels == BitsOf(crit)
  {
    hide DecodeInt, DecodeContainer, CritLabels, LabelBit, Or;
    critLabels := 0;
    crit := [];
    ghost var goal := CritValue(ctx.cbuf, ctx.idx, tol);
    var critCount;
    ret, critCount := ctx.DecodeArray(tol);
    if ret.Success? && (critCount == 0 || critCount > MAX_MAP_ITEMS) {
      ret := Fail(CoseBadHdr);
    }
    ghost var start := ctx.idx;
    var k := 0;
    if ret.Success? {
      CritOntoStart(CritLabels(ctx.cbuf, start, critCount, tol));
    }
    while ret.Success? && k < critCount
      invariant 0 <= k && (ret.Success? ==> k <= critCount)
      invariant critLabels == BitsOf(crit)
      invariant ret.Fail? ==> goal == Err(ret.error)
      invariant ret.Success? ==>
        goal == CritOnto(crit, CritLabels(ctx.cbuf, ctx.idx, critCount - k, tol))
      decreases ret.Success?, critCount - k
    {
      CritStep(ctx.cbuf, ctx.idx, critCount - k, tol);
      var critLabel := 0;
      if ctx.idx >= |ctx.cbuf| || ctx.PeekType() == TSTR {
        ret := Fail(CoseBadHdr);
      } else {
        ret, critLabel := ctx.DecodeInt(tol);
      }
      if ret.Success? {
        if critLabel < 1 || critLabel > 6 {
          ret := Fail(CoseBadHdr);
        } else {
          BitsOfNext(crit, critLabel);
          CritOntoNext(crit, critLabel, CritLabels(ctx.cbuf, ctx.idx, critCount - k - 1, tol));
          critLabels := Or(critLabels, LabelBit(critLabel));
          crit := crit + [critLabel];
        }
      }
      k := k + 1;
    }
    if ret.Success? {
      CritNone(ctx.cbuf, ctx.idx, tol);
      assert crit + [] == crit;
    }
  }

  /** Labels read so far, in front of the ones still to be read. */
  ghost function CritOnto(crit: seq<i64>, rest: Dec<seq<i64>>): Dec<seq<i64>> {
    if rest.Ok? then Ok(crit + rest.value, rest.next) else rest
  }

  lemma CritOntoStart(rest: Dec<seq<i64>>)
    ensures CritOnto([], rest) == rest
  {
    if rest.Ok? {
      assert [] + rest.value == rest.value;
    }
  }

  lemma CritOntoNext(crit: seq<i64>, c: i64, rest: Dec<seq<i64>>)
    ensures CritOnto(crit, CritOnto([c], rest)) == CritOnto(crit + [c], rest)
  {
    if rest.Ok? {
      assert crit + ([c] + rest.value) == (crit + [c]) + rest.value;
    }
  }
}
