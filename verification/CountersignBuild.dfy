/**
 The structure a countersignature signs, and a full countersignature, as the library
 writes them, and the two verification calls.
 */
module CountersignBuild {
  import opened Wire
  import opened Utf8
  import opened Memory
  import opened Cbor
  import opened CborRoundTrip
  import opened CborEncoder
  import opened Header
  import opened Countersign
  import opened CountersignVerify

  /** Text below 128 is UTF-8. */
  lemma AsciiFrom(b: seq<byte>, i: nat)
    requires i <= |b| && forall k :: 0 <= k < |b| ==> b[k] < 128
    ensures Utf8From(b, i)
    decreases |b| - i
  {
    if i < |b| {
      AsciiFrom(b, i + 1);
    }
  }

  lemma ContextIsText(hasOther: bool, abbreviated: bool, legacy: bool)
    ensures IsUtf8(CounterContext(hasOther, abbreviated, legacy))
    ensures |CounterContext(hasOther, abbreviated, legacy)| <= 19
  {
    hide AsciiBytes, Utf8From;
    AsciiFrom(CounterContext(hasOther, abbreviated, legacy), 0);
  }

  /** The context string, and how many items the structure has. */
  method ChooseContext(other: bool, abbreviated: bool, legacy: bool) returns (context: seq<byte>, arrayCount: nat)
    ensures context == CounterContext(other, abbreviated, legacy)
    ensures arrayCount == 4 + (if abbreviated then 0 else 1) + (if other && !legacy then 1 else 0)
  {
    hide AsciiBytes;
    context, arrayCount := CONTEXT_COUNTER, 5;
    if legacy {
      if abbreviated {
        context, arrayCount := CONTEXT_COUNTER0, 4;
      }
    } else if abbreviated {
      if other {
        context, arrayCount := CONTEXT_COUNTER0_V2, 5;
      } else {
        context, arrayCount := CONTEXT_COUNTER0, 4;
      }
    } else if other {
      context, arrayCount := CONTEXT_COUNTER_V2, 6;
    }
  }

  /** `wolfCose_BuildCounterStructure`, into `size` bytes of `scratch` from `start` on. */
  method BuildCounterStructure(t: Target, signProtected: Option<seq<byte>>, extAad: seq<byte>, legacy: bool,
                               scratch: array<byte>, start: nat, size: nat)
    returns (ret: Status, structLen: nat)
    requires Sized(t) && |extAad| <= SIZE_MAX && start + size <= scratch.Length
    requires signProtected.Some? ==> |signProtected.value| <= SIZE_MAX
    modifies scratch
    ensures var tbs := CounterStructure(t, signProtected, extAad, legacy);
      && ret == (if |tbs| <= size then Success else Fail(BufferTooSmall))
      && (ret.Success? ==> structLen == |tbs| && scratch[..] == Patch(old(scratch[..]), start, tbs))
    ensures OnlyWithin(old(scratch[..]), scratch[..], start, size)
  {
    hide Cbor.EncodeHead, EncodeBstr, EncodeTstr, CounterContext, Patch, IsUtf8, OnlyWithin, Encoder.Valid, HeadSize;
    structLen := 0;
    var abbreviated := signProtected.None?;
    var context, arrayCount := ChooseContext(t.other.Some?, abbreviated, legacy);
    ContextIsText(t.other.Some?, abbreviated, legacy);
    var ctx := new Encoder(scratch, start, size);
    ret := BuildCounterFront(ctx, context, arrayCount, t.bodyProtected, signProtected);
    if ret.Success? {
      ret := BuildCounterBack(ctx, extAad, t.payload, if legacy then None else t.other);
    }
    ctx.ValidIsConfined();
    ctx.Done();
    if ret.Success? {
      structLen := ctx.idx;
    }
  }

  /** The array head, the context string and the protected buckets. */
  method BuildCounterFront(ctx: Encoder, context: seq<byte>, arrayCount: u64, bodyProtected: seq<byte>,
                           signProtected: Option<seq<byte>>) returns (ret: Status)
    requires ctx.Valid() && ctx.idx == 0 && ctx.written == []
    requires |context| <= SIZE_MAX && |bodyProtected| <= SIZE_MAX
    requires signProtected.Some? ==> |signProtected.value| <= SIZE_MAX
    modifies ctx`idx, ctx`written, ctx.buf
    ensures ctx.Valid()
    ensures var front := Cbor.EncodeHead(ARRAY, arrayCount) + EncodeTstr(context) + EncodeBstr(bodyProtected)
        + (if signProtected.Some? then EncodeBstr(signProtected.value) else []);
      && (IsUtf8(context) ==> ret == (if |front| <= ctx.bufSz then Success else Fail(BufferTooSmall)))
      && (ret.Success? ==> ctx.written == front && ctx.idx == |front|)
    ensures !IsUtf8(context) ==> ret.Fail?
  {
    hide Cbor.EncodeHead, EncodeBstr, EncodeTstr, Patch, IsUtf8, Encoder.Valid, HeadSize;
    ret := ctx.EncodeArrayStart(arrayCount);
    Nothing(Cbor.EncodeHead(ARRAY, arrayCount));
    if ret.Success? {
      ret := ctx.EncodeTstr(context);
    }
    if ret.Success? {
      ret := ctx.EncodeBstr(bodyProtected);
    }
    Nothing(Cbor.EncodeHead(ARRAY, arrayCount) + EncodeTstr(context) + EncodeBstr(bodyProtected));
    if ret.Success? && signProtected.Some? {
      ret := ctx.EncodeBstr(signProtected.value);
    }
  }

  /** The external data, the payload and the other fields. */
  method BuildCounterBack(ctx: Encoder, extAad: seq<byte>, payload: seq<byte>, other: Option<seq<byte>>)
    returns (ret: Status)
    requires ctx.Valid() && |extAad| <= SIZE_MAX && |payload| <= SIZE_MAX
    requires other.Some? ==> |other.value| <= SIZE_MAX
    modifies ctx`idx, ctx`written, ctx.buf
    ensures ctx.Valid()
    ensures var all := old(ctx.written) + EncodeBstr(extAad) + EncodeBstr(payload)
        + (if other.Some? then Cbor.EncodeHead(ARRAY, 1) + EncodeBstr(other.value) else []);
      && ret == (if old(ctx.idx) + (|all| - |old(ctx.written)|) <= ctx.bufSz then Success else Fail(BufferTooSmall))
      && (ret.Success? ==> ctx.written == all && ctx.idx == old(ctx.idx) + (|all| - |old(ctx.written)|))
  {
    hide Cbor.EncodeHead, EncodeBstr, Patch, Encoder.Valid, HeadSize;
    ret := ctx.EncodeBstr(extAad);
    if ret.Success? {
      ret := ctx.EncodeBstr(payload);
    }
    ghost var w := old(ctx.written) + EncodeBstr(extAad) + EncodeBstr(payload);
    Nothing(w);
    if ret.Success? && other.Some? {
      ret := ctx.EncodeArrayStart(1);
      if ret.Success? {
        ret := ctx.EncodeBstr(other.value);
        Behind(w, Cbor.EncodeHead(ARRAY, 1), EncodeBstr(other.value));
      }
    }
  }

  /** `wolfCose_EncodeFullCounter`. */
  method EncodeFullCounter(ctx: Encoder, prot: seq<byte>, kid: seq<byte>, sig: seq<byte>) returns (ret: Status)
    requires ctx.Valid() && |prot| <= SIZE_MAX && |kid| <= SIZE_MAX && |sig| <= SIZE_MAX
    modifies ctx`idx, ctx`written, ctx.buf
    ensures ctx.Valid()
    ensures var c := FullCounterBytes(prot, kid, sig);
      && ret == (if old(ctx.idx) + |c| <= ctx.bufSz then Success else Fail(BufferTooSmall))
      && (ret.Success? ==> ctx.written == old(ctx.written) + c && ctx.idx == old(ctx.idx) + |c|)
  {
    hide Cbor.EncodeHead, EncodeBstr, Patch, Encoder.Valid, HeadSize, KidMap;
    ghost var w := ctx.written;
    ret := ctx.EncodeArrayStart(3);
    if ret.Success? {
      ret := ctx.EncodeBstr(prot);
    }
    if ret.Success? {
      ret := EncodeKidMap(ctx, kid);
    }
    if ret.Success? {
      ret := ctx.EncodeBstr(sig);
    }
    FourBehind(w, Cbor.EncodeHead(ARRAY, 3), EncodeBstr(prot), KidMap(kid), EncodeBstr(sig));
  }

  lemma FourBehind(w: seq<byte>, a: seq<byte>, b: seq<byte>, c: seq<byte>, d: seq<byte>)
    ensures w + a + b + c + d == w + (a + b + c + d)
  {
    assert w + a + b + c + d == w + (a + b + c + d);
  }

  /** The unprotected bucket: the key identifier, when there is one. */
  method EncodeKidMap(ctx: Encoder, kid: seq<byte>) returns (ret: Status)
    requires ctx.Valid() && |kid| <= SIZE_MAX
    modifies ctx`idx, ctx`written, ctx.buf
    ensures ctx.Valid()
    ensures ret == if old(ctx.idx) + |KidMap(kid)| <= ctx.bufSz then Success else Fail(BufferTooSmall)
    ensures ret.Success? ==> ctx.written == old(ctx.written) + KidMap(kid) && ctx.idx == old(ctx.idx) + |KidMap(kid)|
  {
    hide Cbor.EncodeHead, EncodeBstr, Patch, Encoder.Valid, HeadSize, EncodeInt;
    ghost var w := ctx.written;
    var mapCount := if |kid| != 0 then 1 else 0;
    ret := ctx.EncodeMapStart(mapCount);
    if ret.Success? && |kid| != 0 {
      ret := ctx.EncodeInt(KID);
      if ret.Success? {
        ret := ctx.EncodeBstr(kid);
      }
      FourBehind(w, Cbor.EncodeHead(MAP, 1), EncodeInt(KID), EncodeBstr(kid), []);
    }
  }

  /** `wolfCose_EncodeProtectedHdr`: the protected bucket that names an algorithm. */
  method EncodeProtectedHdr(alg: i64, buf: array<byte>) returns (ret: Status, len: nat)
    modifies buf
    ensures ret == if |AlgHeader(alg)| <= buf.Length then Success else Fail(BufferTooSmall)
    ensures ret.Success? ==> len == |AlgHeader(alg)| <= buf.Length && buf[..len] == AlgHeader(alg)
  {
    hide Cbor.EncodeHead, EncodeInt, Encoder.Valid, HeadSize, Patch;
    len := 0;
    var ctx := new Encoder(buf, 0, buf.Length);
    Nothing(Cbor.EncodeHead(MAP, 1));
    ret := ctx.EncodeMapStart(1);
    if ret.Success? {
      ret := ctx.EncodeUint(ALG);
    }
    if ret.Success? {
      ret := ctx.EncodeInt(alg);
    }
    ctx.Done();
    if ret.Success? {
      len := ctx.idx;
      PatchParts(ctx.was, 0, AlgHeader(alg));
      assert buf[..len] == buf[..][0..len];
    }
  }
}
