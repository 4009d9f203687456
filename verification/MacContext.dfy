/**
 Creating and verifying COSE_Mac messages as the library does, proved against Mac.dfy.
 */
module MacContext {
  import opened Wire
  import opened Utf8
  import opened Memory
  import opened Cbor
  import opened CborRoundTrip
  import opened CborContext
  import opened CborEncoder
  import opened Header
  import opened HeaderState
  import opened HeaderContext
  import opened HeaderDecoders
  import opened Recipients
  import opened RecipientContext
  import opened Countersign
  import opened CountersignLemmas
  import opened CountersignBuild
  import opened CountersignAdd
  import opened Structures
  import opened Messages
  import opened Mac
  import opened CountersignContext

  // ----- Creating -----

  /** A recipient as the caller describes it. */
  datatype Recipient = Recipient(alg: i64, kid: Option<Bytes>, key: Option<Key>)

  function RecipientKid(r: Recipient): (b: Bytes) {
    match r.kid { case None => [] case Some(k) => k }
  }

  function Kids(rs: seq<Recipient>): (ks: seq<Bytes>)
    ensures |ks| == |rs| && forall i :: 0 <= i < |rs| ==> ks[i] == RecipientKid(rs[i])
  {
    seq(|rs|, i requires 0 <= i < |rs| => RecipientKid(rs[i]))
  }

  /** No recipient has a key identifier that is there but empty. */
  predicate KidsOk(rs: seq<Recipient>) {
    forall i :: 0 <= i < |rs| ==> rs[i].kid != Some([])
  }

  /** Every key that is given is unrestricted or restricted to the MAC algorithm. */
  predicate KeysOk(rs: seq<Recipient>, alg: i64) {
    forall i :: 0 <= i < |rs| ==>
      rs[i].key.Some? ==> rs[i].key.value.alg == ALG_UNSET || rs[i].key.value.alg == alg
  }

  predicate AllDirect(rs: seq<Recipient>) {
    forall i :: 0 <= i < |rs| ==> rs[i].alg == ALG_DIRECT
  }

  /** A call that creates a message. */
  datatype Creation = Creation(rs: seq<Recipient>, alg: i64, payload: Option<Bytes>, detached: Option<Bytes>,
                               extAad: Bytes, scratchSz: nat, outSz: nat)

  predicate Fits32(c: Creation) {
    && (c.payload.Some? ==> |c.payload.value| <= WORD32_MAX) && (c.detached.Some? ==> |c.detached.value| <= WORD32_MAX)
    && |c.extAad| <= WORD32_MAX && c.scratchSz <= WORD32_MAX && c.outSz <= WORD32_MAX
  }

  /** The checks of the arguments, in the order of the library. */
  function ArgumentStatus(c: Creation): (r: Status) {
    if c.rs == [] || !Fits32(c) || !KidsOk(c.rs) then Fail(InvalidArg)
    else if c.payload.None? == c.detached.None? then Fail(InvalidArg)
    else if c.rs[0].key.None? || !c.rs[0].key.value.symmetric then Fail(CoseKeyType)
    else if !KeysOk(c.rs, c.alg) || !AllDirect(c.rs) then Fail(CoseBadAlg)
    else Success
  }

  function ToMac(c: Creation): (b: seq<byte>)
    requires ArgumentStatus(c).Success?
  {
    MacTbs(AlgHeader(c.alg), c.extAad, if c.detached.Some? then c.detached.value else c.payload.value)
  }

  /** How creating ends: the refusal, or the message. */
  function Created(c: Creation, macs: Macs): (r: Dec<seq<byte>>)
    requires |c.rs| < U64_BOUND
  {
    if ArgumentStatus(c).Fail? then Err(ArgumentStatus(c).error)
    else
      var (n, _) :- macs.tagSize(c.alg);
      if |ToMac(c)| > c.scratchSz then Err(BufferTooSmall)
      else
        match macs.tagOf(c.alg, c.rs[0].key.value.bytes, ToMac(c))
        case NotSigned(e) => Err(e)
        case Signed(tag) =>
          var m := MacMessage(c.alg, c.payload, tag, Kids(c.rs));
          if |m| > c.outSz then Err(BufferTooSmall) else Ok(m, |m|)
  }

  /** What is created verifies at every recipient index, for a MAC algorithm whose tags have
      their size. */
  lemma CreatedVerifies(c: Creation, macs: Macs, index: nat, scratchSz: nat, policy: i64)
    requires |c.rs| < U64_BOUND && Created(c, macs).Ok? && InInt32(c.alg) && index < |c.rs|
    requires |ToMac(c)| <= scratchSz && (policy == ALG_UNSET || policy == ALG_DIRECT)
    requires var r := macs.tagOf(c.alg, c.rs[0].key.value.bytes, ToMac(c)); r.Signed? ==> |r.sig| == macs.tagSize(c.alg).value
    ensures var s := Created(c, macs).value;
      && |s| <= SIZE_MAX && (c.detached.Some? ==> |c.detached.value| <= SIZE_MAX)
      && MacVerify(s, index, c.detached, c.extAad, scratchSz, Verifier(c.rs[0].key, policy), macs) == Ok(c.payload, |s|)
  {
    hide MacMessage, MacTbs, AlgHeader, MacVerify;
    var tag := macs.tagOf(c.alg, c.rs[0].key.value.bytes, ToMac(c)).sig;
    MacRoundTrip(c.alg, c.rs[0].key.value, c.payload, c.detached, tag, Kids(c.rs), index, c.extAad, scratchSz, policy, macs);
  }

  /** The checks of the arguments. */
  method CheckCreation(c: Creation) returns (ret: Status)
    ensures ret == ArgumentStatus(c)
  {
    ret := Success;
    if |c.rs| == 0 {
      ret := Fail(InvalidArg);
    }
    if ret.Success? && !Fits32(c) {
      ret := Fail(InvalidArg);
    }
    var i := 0;
    while ret.Success? && i < |c.rs|
      invariant 0 <= i <= |c.rs|
      invariant ret.Success? ==> |c.rs| > 0 && Fits32(c) && KidsOk(c.rs[..i])
      invariant ret.Fail? ==> ret == Fail(InvalidArg) && (c.rs == [] || !Fits32(c) || !KidsOk(c.rs))
      decreases ret.Success?, |c.rs| - i
    {
      if c.rs[i].kid.Some? && |c.rs[i].kid.value| == 0 {
        ret := Fail(InvalidArg);
      }
      i := i + 1;
    }
    assert c.rs[..|c.rs|] == c.rs;
    if ret.Success? && c.payload.None? && c.detached.None? {
      ret := Fail(InvalidArg);
    }
    if ret.Success? && c.payload.Some? && c.detached.Some? {
      ret := Fail(InvalidArg);
    }
    if ret.Success? {
      ret := CheckKeys(c);
    }
  }

  /** The checks of the keys and the algorithms. */
  method CheckKeys(c: Creation) returns (ret: Status)
    requires |c.rs| > 0
    ensures ret == if c.rs[0].key.None? || !c.rs[0].key.value.symmetric then Fail(CoseKeyType)
                   else if !KeysOk(c.rs, c.alg) || !AllDirect(c.rs) then Fail(CoseBadAlg)
                   else Success
  {
    ret := Success;
    if c.rs[0].key.None? || !c.rs[0].key.value.symmetric {
      ret := Fail(CoseKeyType);
    }
    var i := 0;
    while ret.Success? && i < |c.rs|
      invariant 0 <= i <= |c.rs|
      invariant ret.Success? ==> c.rs[0].key.Some? && c.rs[0].key.value.symmetric && KeysOk(c.rs[..i], c.alg)
      invariant ret.Fail? ==>
        if c.rs[0].key.None? || !c.rs[0].key.value.symmetric then ret == Fail(CoseKeyType)
        else ret == Fail(CoseBadAlg) && !KeysOk(c.rs, c.alg)
      decreases ret.Success?, |c.rs| - i
    {
      if c.rs[i].key.Some? && c.rs[i].key.value.alg != ALG_UNSET && c.rs[i].key.value.alg != c.alg {
        ret := Fail(CoseBadAlg);
      }
      i := i + 1;
    }
    assert c.rs[..|c.rs|] == c.rs;
    i := 0;
    while ret.Success? && i < |c.rs|
      invariant 0 <= i <= |c.rs|
      invariant ret.Success? ==> c.rs[0].key.Some? && c.rs[0].key.value.symmetric && KeysOk(c.rs, c.alg)
      invariant ret.Success? ==> AllDirect(c.rs[..i])
      invariant ret.Fail? ==>
        if c.rs[0].key.None? || !c.rs[0].key.value.symmetric then ret == Fail(CoseKeyType)
        else ret == Fail(CoseBadAlg) && (!KeysOk(c.rs, c.alg) || !AllDirect(c.rs))
      decreases ret.Success?, |c.rs| - i
    {
      if c.rs[i].alg != ALG_DIRECT {
        ret := Fail(CoseBadAlg);
      }
      i := i + 1;
    }
  }

  /** Tag, array head and protected bucket. */
  method EncodeMessageFront(ctx: Encoder, tag: u64, n: u64, prot: seq<byte>, ghost alg: i64) returns (ret: Status)
    requires ctx.Valid() && ctx.idx == 0 && ctx.written == [] && prot == AlgHeader(alg)
    modifies ctx`idx, ctx`written, ctx.buf
    ensures ctx.Valid()
    ensures var f := FrontBytes(tag, n, alg);
      && ret == (if |f| <= ctx.bufSz then Success else Fail(BufferTooSmall))
      && (ret.Success? ==> ctx.written == f && ctx.idx == |f|)
  {
    hide Encoder.Valid, EncodeHead, EncodeBstr, HeadSize, AlgHeader;
    Nothing(EncodeHead(TAG, tag));
    ret := ctx.EncodeTag(tag);
    if ret.Success? {
      ret := ctx.EncodeArrayStart(n);
    }
    if ret.Success? {
      ret := ctx.EncodeBstr(prot);
    }
  }

  /** A recipient without its value: empty protected bucket, algorithm and key identifier. */
  method EncodeRecipientFront(ctx: Encoder, alg: i64, kid: Bytes) returns (ret: Status)
    requires ctx.Valid()
    modifies ctx`idx, ctx`written, ctx.buf
    ensures ctx.Valid()
    ensures var b := RecipientFront(alg, kid);
      && ret == (if old(ctx.idx) + |b| <= ctx.bufSz then Success else Fail(BufferTooSmall))
      && (ret.Success? ==> ctx.written == old(ctx.written) + b && ctx.idx == old(ctx.idx) + |b|)
  {
    hide Encoder.Valid, EncodeHead, EncodeBstr, HeadSize, AlgKidMap;
    ghost var w := ctx.written;
    ret := ctx.EncodeArrayStart(3);
    if ret.Success? {
      ret := ctx.EncodeBstr([]);
    }
    if ret.Success? {
      ret := EncodeAlgKidMap(ctx, alg, kid);
    }
    FourBehind(w, EncodeHead(ARRAY, 3), EncodeBstr([]), AlgKidMap(alg, kid), []);
  }

  /** One recipient. */
  method EncodeRecipient(ctx: Encoder, r: Outgoing) returns (ret: Status)
    requires ctx.Valid()
    modifies ctx`idx, ctx`written, ctx.buf
    ensures ctx.Valid()
    ensures var b := RecipientBytes(r);
      && ret == (if old(ctx.idx) + |b| <= ctx.bufSz then Success else Fail(BufferTooSmall))
      && (ret.Success? ==> ctx.written == old(ctx.written) + b && ctx.idx == old(ctx.idx) + |b|)
  {
    hide Encoder.Valid, EncodeBstr, RecipientFront;
    Behind(ctx.written, RecipientFront(r.alg, r.kid), EncodeBstr(r.value));
    ret := EncodeRecipientFront(ctx, r.alg, r.kid);
    if ret.Success? {
      ret := ctx.EncodeBstr(r.value);
    }
  }

  /** The unprotected bucket of a recipient. */
  method EncodeAlgKidMap(ctx: Encoder, alg: i64, kid: Bytes) returns (ret: Status)
    requires ctx.Valid()
    modifies ctx`idx, ctx`written, ctx.buf
    ensures ctx.Valid()
    ensures var m := AlgKidMap(alg, kid);
      && ret == (if old(ctx.idx) + |m| <= ctx.bufSz then Success else Fail(BufferTooSmall))
      && (ret.Success? ==> ctx.written == old(ctx.written) + m && ctx.idx == old(ctx.idx) + |m|)
  {
    hide Encoder.Valid, EncodeHead, EncodeBstr, HeadSize, EncodeInt;
    ghost var w := ctx.written;
    ret := ctx.EncodeMapStart(if |kid| > 0 then 2 else 1);
    if ret.Success? {
      ret := ctx.EncodeInt(ALG);
    }
    if ret.Success? {
      ret := ctx.EncodeInt(alg);
    }
    if |kid| > 0 {
      if ret.Success? {
        ret := ctx.EncodeInt(KID);
        if ret.Success? {
          ret := ctx.EncodeBstr(kid);
        }
      }
      FourBehind(w, EncodeHead(MAP, 2), EncodeInt(ALG), EncodeInt(alg), EncodeInt(KID));
      Behind(w, EncodeHead(MAP, 2) + EncodeInt(ALG) + EncodeInt(alg) + EncodeInt(KID), EncodeBstr(kid));
    } else {
      FourBehind(w, EncodeHead(MAP, 1), EncodeInt(ALG), EncodeInt(alg), []);
    }
  }

  /** The list of recipients. */
  method EncodeRecipients(ctx: Encoder, rs: seq<Outgoing>) returns (ret: Status)
    requires ctx.Valid()
    modifies ctx`idx, ctx`written, ctx.buf
    ensures ctx.Valid()
    ensures var b := RecipientsBytes(rs);
      && ret == (if old(ctx.idx) + |b| <= ctx.bufSz then Success else Fail(BufferTooSmall))
      && (ret.Success? ==> ctx.written == old(ctx.written) + b && ctx.idx == old(ctx.idx) + |b|)
  {
    hide Encoder.Valid, RecipientBytes, RecipientsBytes;
    ghost var w, start := ctx.written, ctx.idx;
    ctx.Done();
    ret := Success;
    RecipientsNone();
    Nothing(w);
    var i := 0;
    while ret.Success? && i < |rs|
      invariant 0 <= i <= |rs| && ctx.Valid()
      invariant ret.Success? ==>
        ctx.written == w + RecipientsBytes(rs[..i]) && ctx.idx == start + |RecipientsBytes(rs[..i])| <= ctx.bufSz
      invariant ret.Fail? ==> ret.error == BufferTooSmall && start + |RecipientsBytes(rs)| > ctx.bufSz
      decreases ret.Success?, |rs| - i
    {
      assert rs[..i + 1] == rs[..i] + [rs[i]] && rs == rs[..i + 1] + rs[i + 1..];
      RecipientsNext(rs[..i], rs[i]);
      RecipientsSplit(rs[..i + 1], rs[i + 1..]);
      Behind(w, RecipientsBytes(rs[..i]), RecipientBytes(rs[i]));
      ret := EncodeRecipient(ctx, rs[i]);
      i := i + 1;
    }
    assert rs[..|rs|] == rs;
  }

  /** What follows the front. */
  method EncodeMacBack(ctx: Encoder, embedded: Option<Bytes>, tag: Bytes, kids: seq<Bytes>) returns (ret: Status)
    requires ctx.Valid() && |kids| < U64_BOUND
    modifies ctx`idx, ctx`written, ctx.buf
    ensures ctx.Valid()
    ensures var b := MacBack(embedded, tag, kids);
      && ret == (if old(ctx.idx) + |b| <= ctx.bufSz then Success else Fail(BufferTooSmall))
      && (ret.Success? ==> ctx.written == old(ctx.written) + b && ctx.idx == old(ctx.idx) + |b|)
  {
    hide Encoder.Valid, EncodeHead, EncodeBstr, HeadSize, RecipientsBytes, DirectRecipients;
    ghost var w := ctx.written;
    ret := ctx.EncodeMapStart(0);
    if ret.Success? {
      if embedded.None? {
        ret := ctx.EncodeNull();
      } else {
        ret := ctx.EncodeBstr(embedded.value);
      }
    }
    if ret.Success? {
      ret := ctx.EncodeBstr(tag);
    }
    if ret.Success? {
      ret := ctx.EncodeArrayStart(|kids|);
    }
    if ret.Success? {
      ret := EncodeRecipients(ctx, DirectRecipients(kids));
    }
    ghost var f := EncodeHead(MAP, 0) + ContentBytes(embedded) + EncodeBstr(tag) + EncodeHead(ARRAY, |kids|);
    FourBehind(w, EncodeHead(MAP, 0), ContentBytes(embedded), EncodeBstr(tag), EncodeHead(ARRAY, |kids|));
    Behind(w, f, RecipientsBytes(DirectRecipients(kids)));
  }

  /** `wc_CoseMac_Create`. */
  method MacCreate(c: Creation, macs: Macs, scratch: array<byte>, out: array<byte>) returns (ret: Status, outLen: nat)
    requires |c.rs| < U64_BOUND && c.scratchSz == scratch.Length && c.outSz == out.Length && scratch != out
    modifies scratch, out
    ensures ret == Created(c, macs).Status()
    ensures ret.Success? ==> outLen == |Created(c, macs).value| <= out.Length && out[..outLen] == Created(c, macs).value
    ensures ret.Fail? ==> out[..] == Zeros(out.Length)
    ensures scratch[..] == Zeros(scratch.Length)
  {
    hide Created, Zeros;
    ret, outLen := MakeMac(c, macs, scratch, out);
    ghost var made := out[..];
    EraseAfter(ret, scratch, out);
    assert ret.Success? ==> out[..outLen] == made[..outLen];
  }

  /** The message, before anything is erased. */
  method MakeMac(c: Creation, macs: Macs, scratch: array<byte>, out: array<byte>) returns (ret: Status, outLen: nat)
    requires |c.rs| < U64_BOUND && c.scratchSz == scratch.Length && c.outSz == out.Length && scratch != out
    modifies scratch, out
    ensures ret == Created(c, macs).Status()
    ensures ret.Success? ==> outLen == |Created(c, macs).value| <= out.Length && out[..outLen] == Created(c, macs).value
  {
    hide Encoder.Valid, AlgHeader, FrontBytes, MacBack, ToBeSignedMaced, Patch, OnlyWithin, IsUtf8, ArgumentStatus,
         KidsOk, KeysOk, AllDirect, Kids;
    outLen := 0;
    ret := CheckCreation(c);
    if ret.Fail? {
      return;
    }
    AcceptedArguments(c);
    var r := macs.tagSize(c.alg);
    if r.Err? {
      return Fail(r.error), outLen;
    }
    var protectedBuf := new byte[PROTECTED_HDR_MAX];
    var protectedLen, structLen;
    ret, protectedLen := EncodeProtectedHdr(c.alg, protectedBuf);
    var prot := protectedBuf[..protectedLen];
    MacContextIsText();
    ghost var was := scratch[..];
    ret, structLen := BuildToBeSignedMaced(CONTEXT_MAC, prot, None, c.extAad,
                                           if c.detached.Some? then c.detached.value else c.payload.value,
                                           scratch, 0, scratch.Length);
    if ret.Fail? {
      return;
    }
    PatchPrefix(was, ToMac(c));
    assert scratch[..structLen] == scratch[..][..structLen];
    var made := macs.tagOf(c.alg, c.rs[0].key.value.bytes, scratch[..structLen]);
    match made
    case NotSigned(e) =>
      ret := Fail(e);
    case Signed(tag) =>
      ret, outLen := EncodeMac(c, prot, tag, out);
  }

  lemma AcceptedArguments(c: Creation)
    requires ArgumentStatus(c).Success?
    ensures |c.rs| > 0 && c.rs[0].key.Some? && (c.payload.Some? <==> c.detached.None?)
  {
  }

  lemma MacContextIsText()
    ensures IsUtf8(CONTEXT_MAC) && |CONTEXT_MAC| <= 10
  {
    MessageContexts(CONTEXT_MAC);
  }

  /** The message written into the output buffer. */
  method EncodeMac(c: Creation, prot: seq<byte>, tag: Bytes, out: array<byte>) returns (ret: Status, outLen: nat)
    requires |c.rs| < U64_BOUND && prot == AlgHeader(c.alg)
    modifies out
    ensures var m := MacMessage(c.alg, c.payload, tag, Kids(c.rs));
      && ret == (if |m| <= out.Length then Success else Fail(BufferTooSmall))
      && (ret.Success? ==> outLen == |m| && out[..outLen] == m)
  {
    hide Encoder.Valid, AlgHeader, FrontBytes, MacBack, Patch, Kids;
    outLen := 0;
    var ctx := new Encoder(out, 0, out.Length);
    ret := EncodeMessageFront(ctx, TAG_MAC, 5, prot, c.alg);
    if ret.Success? {
      ret := EncodeMacBack(ctx, c.payload, tag, Kids(c.rs));
    }
    if ret.Success? {
      ctx.Done();
      outLen := ctx.idx;
      PatchPrefix(ctx.was, MacMessage(c.alg, c.payload, tag, Kids(c.rs)));
      assert out[..outLen] == out[..][..outLen];
    }
  }

  // ----- Verifying -----

  /** Both buckets of a message or a recipient, decoded into one blank record. */
  method DecodeBuckets(ctx: Decoder) returns (ret: Status, prot: seq<byte>, hdr: Hdr, algProtected: bool)
    requires |ctx.cbuf| <= SIZE_MAX
    modifies ctx
    ensures fresh(hdr)
    ensures var r := Buckets(ctx.cbuf, old(ctx.idx));
      && ret == r.Status()
      && (ret.Success? ==>
            && ctx.idx == r.next && prot == r.value.prot && hdr.alg == BodyAlg(ctx.cbuf, r.value)
            && hdr.iv == BodyIv(ctx.cbuf, r.value)
            && (algProtected <==> AlgProtected(r.value)) && |prot| <= SIZE_MAX)
  {
    hide ProtectedHdr, UnprotectedHdr, DecodeString, Labels, HdrState.Valid, AlgField, BstrField, ContentTypeField;
    prot, algProtected := [], false;
    hdr := new Hdr();
    var hdrState := new HdrState();
    ghost var at := ctx.idx;
    ret, prot := ctx.DecodeBstr(false);
    if ret.Success? {
      BstrSized(ctx.cbuf, at);
      ret := DecodeProtectedHdr(prot, hdr, hdrState, false);
    }
    if ret.Success? {
      IvOfProtected(prot);
      algProtected := hdrState.Contains(ALG);
      ret := DecodeUnprotectedHdr(ctx, hdr, hdrState, false);
    }
  }

  /** The recipients that are not selected. */
  method SkipRecipients(ctx: Decoder, n: nat, mode: int) returns (ret: Status, recipientMode: int)
    modifies ctx
    ensures var r := SkipOthers(ctx.cbuf, old(ctx.idx), n, mode);
      && ret == r.Status() && (ret.Success? ==> ctx.idx == r.next && recipientMode == r.value)
  {
    hide SkippedRecipient, Mode, SkipOthers;
    ret, recipientMode := Success, mode;
    ghost var goal := SkipOthers(ctx.cbuf, ctx.idx, n, mode);
    var i: int := 0;
    while ret.Success? && i < n
      invariant 0 <= i && (ret.Success? ==> i <= n)
      invariant ret.Fail? ==> goal == Err(ret.error)
      invariant ret.Success? ==> goal == SkipOthers(ctx.cbuf, ctx.idx, n - i, recipientMode)
      decreases ret.Success?, n - i
    {
      OthersUnfold(ctx.cbuf, ctx.idx, n - i, recipientMode);
      var skippedAlg;
      ret, skippedAlg := DecodeSkippedRecipient(ctx);
      if ret.Success? {
        ret, recipientMode := UpdateRecipientMode(skippedAlg, recipientMode);
      }
      i := i + 1;
    }
    if ret.Success? {
      OthersNone(ctx.cbuf, ctx.idx, recipientMode);
    }
  }

  lemma OthersUnfold(s: seq<byte>, i: nat, n: nat, mode: int)
    requires n > 0
    ensures var r := SkippedRecipient(s, i);
      SkipOthers(s, i, n, mode)
      == if r.Err? then Err(r.error)
         else match NextMode(r.value, mode) case None => Err(CoseBadAlg) case Some(m) => SkipOthers(s, r.next, n - 1, m)
  {
    hide SkippedRecipient;
  }

  /** The selected recipient. */
  method ChooseRecipient(ctx: Decoder, mode: int) returns (ret: Status, chosen: Chosen)
    requires |ctx.cbuf| <= SIZE_MAX
    modifies ctx
    ensures var r := ChosenRecipient(ctx.cbuf, old(ctx.idx), mode);
      && ret == r.Status() && (ret.Success? ==> ctx.idx == r.next && chosen == r.value)
  {
    hide Buckets, DecodeHead, DecodeContainer, BodyAlg, Mode, NextMode;
    chosen := Chosen(ALG_UNSET, mode, None);
    var count;
    ret, count := ctx.DecodeArray(false);
    if ret.Success? && count != 3 {
      ret := Fail(CborMalformed);
    }
    if ret.Fail? {
      return;
    }
    var prot, hdr, algProtected;
    ret, prot, hdr, algProtected := DecodeBuckets(ctx);
    if ret.Fail? {
      return;
    }
    var alg := hdr.alg;
    var recipientMode;
    ret, recipientMode := UpdateRecipientMode(alg, mode);
    if ret.Success? && alg == ALG_DIRECT && |prot| != 0 {
      ret := Fail(CoseBadHdr);
    }
    if ret.Fail? {
      return;
    }
    var isNull := ctx.idx < |ctx.cbuf| && ctx.cbuf[ctx.idx] == NULL_BYTE;
    var item;
    ret, item := ctx.DecodeHead(false);
    if ret.Fail? {
      return;
    }
    if alg == ALG_DIRECT && (item.major != BSTR || |item.data| != 0) {
      return Fail(CoseBadHdr), chosen;
    }
    if isNull {
      chosen := Chosen(alg, recipientMode, None);
    } else if item.major == BSTR {
      chosen := Chosen(alg, recipientMode, Some(item.data));
    } else {
      ret := Fail(CborType);
    }
  }

  /** The payload field. */
  method DecodeContent(ctx: Decoder, detached: Option<seq<byte>>) returns (ret: Status, content: Content)
    modifies ctx
    ensures var r := ContentField(ctx.cbuf, old(ctx.idx), detached);
      && ret == r.Status() && (ret.Success? ==> ctx.idx == r.next && content == r.value)
  {
    hide DecodeHead;
    content := Content([], None);
    var isNull := ctx.idx < |ctx.cbuf| && ctx.cbuf[ctx.idx] == NULL_BYTE;
    var item;
    ret, item := ctx.DecodeHead(false);
    if ret.Fail? {
      return;
    }
    if isNull {
      if detached.None? {
        ret := Fail(Error.DetachedPayload);
      } else {
        content := Content(detached.value, None);
      }
    } else if item.major == BSTR {
      content := Content(item.data, Some(item.data));
    } else {
      ret := Fail(CborType);
    }
  }

  /** The front of a message. */
  method DecodeFront(ctx: Decoder, tag: u64, expected: nat)
    returns (ret: Status, prot: seq<byte>, alg: i64, iv: Option<seq<byte>>, algProtected: bool)
    requires |ctx.cbuf| <= SIZE_MAX && ctx.idx == 0
    modifies ctx
    ensures var r := MessageFront(ctx.cbuf, tag, expected);
      && ret == r.Status()
      && (ret.Success? ==>
            && ctx.idx == r.next && prot == r.value.prot && alg == BodyAlg(ctx.cbuf, r.value)
            && iv == BodyIv(ctx.cbuf, r.value)
            && (algProtected <==> AlgProtected(r.value)) && |prot| <= SIZE_MAX)
  {
    hide Buckets, DecodeHead, DecodeContainer, BodyAlg, BodyIv, AlgProtected;
    prot, alg, iv, algProtected := [], ALG_UNSET, None, false;
    ret := Success;
    if ctx.idx < |ctx.cbuf| && ctx.PeekType() == TAG {
      var t;
      ret, t := ctx.DecodeTag(false);
      if ret.Success? && t != tag {
        ret := Fail(CoseBadTag);
      }
    }
    var count;
    if ret.Success? {
      ret, count := ctx.DecodeArray(false);
      if ret.Success? && count != expected {
        ret := Fail(CborMalformed);
      }
    }
    if ret.Success? {
      var hdr;
      ret, prot, hdr, algProtected := DecodeBuckets(ctx);
      alg, iv := hdr.alg, hdr.iv;
    }
  }

  /** What parsing a COSE_Mac message leaves in the local variables of the verifier. */
  datatype Parsed = Parsed(prot: seq<byte>, alg: i64, algProtected: bool, content: Content, tag: seq<byte>, chosen: Chosen)

  /** Parsing, with one recipient selected. */
  method DecodeMac(s: seq<byte>, recipientIndex: nat, detached: Option<seq<byte>>) returns (ret: Status, p: Parsed)
    requires |s| <= SIZE_MAX
    ensures var r := ParseMac(s, recipientIndex, detached);
      && ret == r.Status()
      && (ret.Success? ==>
            && p.prot == r.value.body.prot && p.alg == r.value.alg && (p.algProtected <==> AlgProtected(r.value.body))
            && p.content == r.value.content && p.tag == r.value.tag && p.chosen == r.value.chosen && |p.prot| <= SIZE_MAX)
  {
    hide MessageFront, ContentField, DecodeString, RecipientsOf, BodyAlg, AlgProtected;
    p := Parsed([], ALG_UNSET, false, Content([], None), [], Chosen(ALG_UNSET, MODE_NONE, None));
    var ctx := new Decoder(s);
    var prot, alg, iv, algProtected;
    ret, prot, alg, iv, algProtected := DecodeFront(ctx, TAG_MAC, 5);
    if ret.Fail? {
      return;
    }
    var content, tag, chosen;
    ret, content := DecodeContent(ctx, detached);
    if ret.Fail? {
      return;
    }
    ret, tag := ctx.DecodeBstr(false);
    if ret.Fail? {
      return;
    }
    ret, chosen := DecodeRecipients(ctx, recipientIndex);
    p := Parsed(prot, alg, algProtected, content, tag, chosen);
  }

  /** The recipients, to the end of the message, with one selected. */
  method DecodeRecipients(ctx: Decoder, recipientIndex: nat) returns (ret: Status, chosen: Chosen)
    requires |ctx.cbuf| <= SIZE_MAX
    modifies ctx
    ensures var r := RecipientsOf(ctx.cbuf, old(ctx.idx), recipientIndex);
      ret == r.Status() && (ret.Success? ==> chosen == r.value)
  {
    hide DecodeContainer, SkipOthers, ChosenRecipient;
    chosen := Chosen(ALG_UNSET, MODE_NONE, None);
    var recipientsCount, recipientMode;
    ret, recipientsCount := ctx.DecodeArray(false);
    if ret.Success? && recipientIndex >= recipientsCount {
      ret := Fail(InvalidArg);
    }
    if ret.Fail? {
      return;
    }
    ret, recipientMode := SkipRecipients(ctx, recipientIndex, MODE_NONE);
    if ret.Fail? {
      return;
    }
    ret, chosen := ChooseRecipient(ctx, recipientMode);
    if ret.Fail? {
      return;
    }
    ret, recipientMode := SkipRecipients(ctx, recipientsCount - recipientIndex - 1, chosen.mode);
    if ret.Success? && ctx.idx != |ctx.cbuf| {
      ret := Fail(CborMalformed);
    }
  }

  /** `wc_CoseMac_Verify`: the payload in the message, or none when it is detached. */
  method VerifyMac(s: seq<byte>, recipientIndex: nat, detached: Option<Bytes>, extAad: Field, scratch: array<byte>,
                   v: Verifier, macs: Macs) returns (ret: Status, payload: Option<seq<byte>>)
    requires |s| <= SIZE_MAX
    modifies scratch
    ensures var fits := |s| <= WORD32_MAX && (detached.Some? ==> |detached.value| <= WORD32_MAX)
                        && |extAad| <= WORD32_MAX && scratch.Length <= WORD32_MAX;
      var r := MacVerify(s, recipientIndex, detached, extAad, scratch.Length, v, macs);
      && (fits ==> ret == r.Status())
      && (!fits ==> ret == Fail(InvalidArg))
      && (ret.Success? ==> payload == r.value)
  {
    hide ParseMac, ToBeSignedMaced, Patch, OnlyWithin, IsUtf8;
    payload := None;
    if |s| == 0 {
      return Fail(InvalidArg), payload;
    }
    if |s| > WORD32_MAX || (detached.Some? && |detached.value| > WORD32_MAX) || |extAad| > WORD32_MAX
       || scratch.Length > WORD32_MAX {
      return Fail(InvalidArg), payload;
    }
    var p;
    ret, p := DecodeMac(s, recipientIndex, detached);
    if ret.Fail? {
      return;
    }
    MacSized(s, recipientIndex, detached);
    ret := CheckPolicy(p, v);
    if ret.Fail? {
      return;
    }
    var size := macs.tagSize(p.alg);
    if size.Err? {
      return Fail(size.error), payload;
    }
    if |p.tag| != size.value {
      return Fail(MacFail), payload;
    }
    MacContextIsText();
    ghost var was, tbs := scratch[..], MacTbs(p.prot, extAad, p.content.bytes);
    var structLen;
    ret, structLen := BuildToBeSignedMaced(CONTEXT_MAC, p.prot, None, extAad, p.content.bytes, scratch, 0, scratch.Length);
    if ret.Fail? {
      return;
    }
    PatchPrefix(was, tbs);
    assert scratch[..structLen] == scratch[..][..structLen];
    var made := macs.tagOf(p.alg, v.key.value.bytes, scratch[..structLen]);
    match made
    case NotSigned(e) =>
      ret := Fail(e);
    case Signed(computed) =>
      if computed != p.tag {
        ret := Fail(MacFail);
      } else {
        payload := p.content.embedded;
      }
  }

  /** The checks of key and policy against the parsed message. */
  method CheckPolicy(p: Parsed, v: Verifier) returns (ret: Status)
    ensures ret == if v.key.None? || !v.key.value.symmetric then Fail(CoseKeyType)
                   else if v.key.value.alg == ALG_UNSET && !p.algProtected then Fail(CoseBadAlg)
                   else if v.key.value.alg != ALG_UNSET && v.key.value.alg != p.alg then Fail(CoseBadAlg)
                   else if p.chosen.alg != ALG_DIRECT then Fail(Unsupported)
                   else if p.chosen.value.Some? && p.chosen.value.value != [] then Fail(CborMalformed)
                   else if v.policy != ALG_UNSET && v.policy != p.chosen.alg then Fail(CoseBadAlg)
                   else Success
  {
    ret := Success;
    if v.key.None? || !v.key.value.symmetric {
      ret := Fail(CoseKeyType);
    }
    if ret.Success? && v.key.value.alg == ALG_UNSET && !p.algProtected {
      ret := Fail(CoseBadAlg);
    }
    if ret.Success? && v.key.value.alg != ALG_UNSET && v.key.value.alg != p.alg {
      ret := Fail(CoseBadAlg);
    }
    if ret.Success? && p.chosen.alg != ALG_DIRECT {
      ret := Fail(Unsupported);
    }
    if ret.Success? && p.chosen.value.Some? && |p.chosen.value.value| != 0 {
      ret := Fail(CborMalformed);
    }
    if ret.Success? && v.policy != ALG_UNSET && v.policy != p.chosen.alg {
      ret := Fail(CoseBadAlg);
    }
  }
}
