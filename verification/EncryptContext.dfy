/**
 Creating and decrypting COSE_Encrypt messages as the library does, proved against Encrypt.dfy.
 */
module EncryptContext {
  import opened Wire
  import opened Utf8
  import opened Memory
  import opened Cbor
  import opened CborRoundTrip
  import opened CborContext
  import opened CborEncoder
  import opened Header
  import opened HeaderState
  import opened HeaderContext
  import opened HeaderDecoders
  import opened Recipients
  import opened RecipientContext
  import opened Countersign
  import opened CountersignLemmas
  import opened CountersignBuild
  import opened CountersignAdd
  import opened CountersignContext
  import opened Structures
  import opened Messages
  import opened Mac
  import opened MacContext
  import opened Encrypt

  // ----- Creating -----

  /** The checks of the arguments. */
  method CheckEncryption(c: Encryption, x: Ciphers) returns (ret: Status)
    ensures ret.Success? <==> Acceptable(c, x)
  {
    ret := Success;
    if |c.rs| == 0 || |c.iv| == 0 || !FitsWord32(c) {
      ret := Fail(InvalidArg);
    }
    var i := 0;
    while ret.Success? && i < |c.rs|
      invariant 0 <= i <= |c.rs|
      invariant ret.Success? ==> |c.rs| > 0 && |c.iv| > 0 && FitsWord32(c) && KidsOk(c.rs[..i])
      invariant ret.Fail? ==> !Acceptable(c, x)
      decreases ret.Success?, |c.rs| - i
    {
      if c.rs[i].kid.Some? && |c.rs[i].kid.value| == 0 {
        ret := Fail(InvalidArg);
      }
      i := i + 1;
    }
    assert c.rs[..|c.rs|] == c.rs;
    if ret.Success? && c.payload.None? && c.detached.None? {
      ret := Fail(InvalidArg);
    }
    if ret.Success? {
      ret := x.keyLen(c.alg).Status();
    }
    if ret.Success? {
      ret := x.tagLen(c.alg).Status();
    }
    if ret.Success? {
      ret := x.payloadLen(c.alg, |if c.detached.Some? then c.detached.value else c.payload.value|);
    }
    if ret.Success? {
      ret := x.nonceLen(c.alg).Status();
      if ret.Success? && |c.iv| != x.nonceLen(c.alg).value {
        ret := Fail(InvalidArg);
      }
    }
  }

  /** The checks of the keys that wrap the content key. */
  method CheckWrapKeys(rs: seq<Recipient>, x: Ciphers) returns (ret: Status)
    ensures ret.Success? <==> WrapKeysOk(rs, x)
  {
    ret := Success;
    var i := 0;
    while ret.Success? && i < |rs|
      invariant 0 <= i <= |rs|
      invariant ret.Success? ==> WrapKeysOk(rs[..i], x)
      invariant ret.Fail? ==> !WrapKeysOk(rs, x)
      decreases ret.Success?, |rs| - i
    {
      var r := rs[i];
      if !IsKeyWrapAlg(r.alg) {
        ret := Fail(CoseBadAlg);
      } else if r.key.Some? && r.key.value.alg != ALG_UNSET && r.key.value.alg != r.alg {
        ret := Fail(CoseBadAlg);
      } else if r.key.None? || !r.key.value.symmetric {
        ret := Fail(CoseKeyType);
      } else {
        ret := x.wrapKeyLen(r.alg).Status();
        if ret.Success? && |r.key.value.bytes| != x.wrapKeyLen(r.alg).value {
          ret := Fail(CoseKeyType);
        }
      }
      assert rs[..i + 1] == rs[..i] + [r];
      i := i + 1;
    }
    assert rs[..|rs|] == rs;
  }

  /** The checks of the key that is used directly. */
  method CheckDirectKeys(rs: seq<Recipient>, alg: i64, keyLen: nat) returns (ret: Status)
    requires |rs| > 0
    ensures ret.Success? <==> DirectKeysOk(rs, alg, keyLen)
  {
    ret := Success;
    if rs[0].key.None? || !rs[0].key.value.symmetric || |rs[0].key.value.bytes| != keyLen {
      ret := Fail(CoseKeyType);
    } else if rs[0].key.value.alg != ALG_UNSET && rs[0].key.value.alg != alg {
      ret := Fail(CoseBadAlg);
    }
    var i := 0;
    while ret.Success? && i < |rs|
      invariant 0 <= i <= |rs|
      invariant ret.Success? ==>
        && rs[0].key.Some? && rs[0].key.value.symmetric && |rs[0].key.value.bytes| == keyLen
        && AllDirect(rs[..i]) && KeysOk(rs[..i], alg)
      invariant ret.Fail? ==> !DirectKeysOk(rs, alg, keyLen)
      decreases ret.Success?, |rs| - i
    {
      var r := rs[i];
      if r.alg != ALG_DIRECT {
        ret := Fail(CoseBadAlg);
      } else if KeyAlgStatus(r.key, r.alg, alg).Fail? {
        ret := Fail(CoseBadAlg);
      }
      assert rs[..i + 1] == rs[..i] + [r];
      i := i + 1;
    }
    assert rs[..|rs|] == rs;
  }

  /** The key for the content. */
  method ChooseKey(c: Encryption, x: Ciphers) returns (ret: Status, encKey: Bytes)
    requires Acceptable(c, x)
    ensures ret.Success? <==> FreshKey(c, x).Some?
    ensures ret.Success? ==> encKey == FreshKey(c, x).value
  {
    hide WrapKeysOk, AllDirect, KeysOk;
    encKey := [];
    var keyLen := x.keyLen(c.alg).value;
    if IsKeyWrapAlg(c.rs[0].alg) {
      ret := if c.random.None? then Fail(InvalidArg) else Success;
      if ret.Success? {
        ret := CheckWrapKeys(c.rs, x);
      }
      if ret.Success? {
        var k := c.random.value(keyLen);
        if k.Fails? {
          ret := Fail(Crypto);
        } else {
          encKey := k.bytes;
        }
      }
    } else {
      ret := CheckDirectKeys(c.rs, c.alg, keyLen);
      if ret.Success? && |c.rs[0].key.value.bytes| > SIZE_MAX {
        ret := Fail(CoseKeyType);
      }
      if ret.Success? {
        encKey := c.rs[0].key.value.bytes;
      }
    }
  }

  /** The nonce in the unprotected bucket. */
  method EncodeIvMap(ctx: Encoder, iv: Bytes) returns (ret: Status)
    requires ctx.Valid()
    modifies ctx`idx, ctx`written, ctx.buf
    ensures ctx.Valid()
    ensures var b := IvMap(iv);
      && ret == (if old(ctx.idx) + |b| <= ctx.bufSz then Success else Fail(BufferTooSmall))
      && (ret.Success? ==> ctx.written == old(ctx.written) + b && ctx.idx == old(ctx.idx) + |b|)
  {
    hide Encoder.Valid, EncodeHead, EncodeBstr, HeadSize, EncodeInt;
    ghost var w := ctx.written;
    ret := ctx.EncodeMapStart(1);
    if ret.Success? {
      ret := ctx.EncodeInt(IV);
    }
    if ret.Success? {
      ret := ctx.EncodeBstr(iv);
    }
    FourBehind(w, EncodeHead(MAP, 1), EncodeInt(IV), EncodeBstr(iv), []);
  }

  /** The head of the ciphertext, and the ciphertext sealed in place behind it. */
  method SealInPlace(ctx: Encoder, alg: i64, encKey: Bytes, iv: Bytes, aad: Bytes, plaintext: Bytes, tagLen: nat, x: Ciphers)
    returns (ret: Status)
    requires ctx.Valid() && Lawful(x) && x.tagLen(alg).Ok? && x.tagLen(alg).value == tagLen
    modifies ctx`idx, ctx`written, ctx.buf
    ensures ctx.Valid()
    ensures var r := x.seal(alg, encKey, iv, aad, plaintext);
      && (ret.Success? <==> r.Yields? && old(ctx.idx) + |EncodeBstr(r.bytes)| <= ctx.bufSz)
      && (ret.Success? ==> ctx.written == old(ctx.written) + EncodeBstr(r.bytes)
                           && ctx.idx == old(ctx.idx) + |EncodeBstr(r.bytes)|)
  {
    hide Encoder.Valid, EncodeHead, HeadSize, Lawful;
    ghost var w := ctx.written;
    ghost var sealed := x.seal(alg, encKey, iv, aad, plaintext);
    if sealed.Yields? {
      SealedLaw(x, alg, encKey, iv, aad, plaintext);
      Behind(w, EncodeHead(BSTR, |sealed.bytes|), sealed.bytes);
    }
    if |plaintext| > SIZE_MAX - tagLen {
      return Fail(BufferTooSmall);
    }
    var ciphertextLen := |plaintext| + tagLen;
    ret := ctx.EncodeHead(BSTR, ciphertextLen);
    if ret.Success? && ctx.idx + ciphertextLen > ctx.bufSz {
      ret := Fail(CborOverflow);
    }
    if ret.Success? {
      var r := x.seal(alg, encKey, iv, aad, plaintext);
      if r.Fails? {
        ret := Fail(r.error);
      } else {
        ctx.Append(r.bytes);
      }
    }
  }

  /** What the first recipients are written as, when their keys are wrapped. */
  lemma OutgoingPrefix(rs: seq<Recipient>, i: nat, wraps: bool, cek: Bytes, x: Ciphers)
    requires i < |rs| && AllWrapped(rs[..i], wraps, cek, x) && WrappedFor(rs[i], wraps, cek, x).Yields?
    ensures AllWrapped(rs[..i + 1], wraps, cek, x)
    ensures OutgoingFor(rs[..i + 1], wraps, cek, x)
         == OutgoingFor(rs[..i], wraps, cek, x) + [Outgoing(rs[i].alg, RecipientKid(rs[i]), WrappedFor(rs[i], wraps, cek, x).bytes)]
  {
    hide WrappedFor;
    assert forall k :: 0 <= k < i ==> rs[..i + 1][k] == rs[..i][k];
    assert rs[..i + 1][i] == rs[i];
  }

  /** A part of the recipients takes no more room than all of them. */
  lemma PrefixRoom(rs: seq<Recipient>, i: nat, wraps: bool, cek: Bytes, x: Ciphers)
    requires i <= |rs| && AllWrapped(rs, wraps, cek, x)
    ensures AllWrapped(rs[..i], wraps, cek, x)
    ensures |RecipientsBytes(OutgoingFor(rs[..i], wraps, cek, x))| <= |RecipientsBytes(OutgoingFor(rs, wraps, cek, x))|
  {
    hide WrappedFor, RecipientsBytes;
    var os := OutgoingFor(rs, wraps, cek, x);
    assert OutgoingFor(rs[..i], wraps, cek, x) == os[..i];
    assert os == os[..i] + os[i..];
    RecipientsSplit(os[..i], os[i..]);
  }

  /** One recipient, with the content key wrapped for it between the parts. */
  method EncodeWrapped(ctx: Encoder, r: Recipient, wraps: bool, cek: Bytes, x: Ciphers) returns (ret: Status)
    requires ctx.Valid() && (wraps ==> r.key.Some?)
    modifies ctx`idx, ctx`written, ctx.buf
    ensures ctx.Valid()
    ensures var w := WrappedFor(r, wraps, cek, x);
      && (ret.Success? <==>
            w.Yields? && old(ctx.idx) + |RecipientBytes(Outgoing(r.alg, RecipientKid(r), w.bytes))| <= ctx.bufSz)
      && (ret.Success? ==>
            var b := RecipientBytes(Outgoing(r.alg, RecipientKid(r), w.bytes));
            ctx.written == old(ctx.written) + b && ctx.idx == old(ctx.idx) + |b|)
  {
    hide Encoder.Valid, EncodeBstr, RecipientFront;
    ghost var start := ctx.written;
    ret := EncodeRecipientFront(ctx, r.alg, RecipientKid(r));
    if ret.Success? {
      if wraps {
        var w := x.wrap(r.alg, r.key.value.bytes, cek);
        if w.Fails? {
          ret := Fail(w.error);
        } else {
          Behind(start, RecipientFront(r.alg, RecipientKid(r)), EncodeBstr(w.bytes));
          ret := ctx.EncodeBstr(w.bytes);
        }
      } else {
        Behind(start, RecipientFront(r.alg, RecipientKid(r)), EncodeBstr([]));
        ret := ctx.EncodeBstr([]);
      }
    }
  }

  /** The list of recipients. */
  method EncodeAllWrapped(ctx: Encoder, rs: seq<Recipient>, wraps: bool, cek: Bytes, x: Ciphers) returns (ret: Status)
    requires ctx.Valid() && (wraps ==> WrapKeysOk(rs, x))
    modifies ctx`idx, ctx`written, ctx.buf
    ensures ctx.Valid()
    ensures ret.Success? <==>
      AllWrapped(rs, wraps, cek, x) && old(ctx.idx) + |RecipientsBytes(OutgoingFor(rs, wraps, cek, x))| <= ctx.bufSz
    ensures ret.Success? ==>
      var b := RecipientsBytes(OutgoingFor(rs, wraps, cek, x));
      ctx.written == old(ctx.written) + b && ctx.idx == old(ctx.idx) + |b|
  {
    hide Encoder.Valid, RecipientBytes, RecipientsBytes, WrappedFor;
    ghost var w, start := ctx.written, ctx.idx;
    ctx.Done();
    ret := Success;
    RecipientsNone();
    Nothing(w);
    var i := 0;
    while ret.Success? && i < |rs|
      invariant 0 <= i <= |rs| && ctx.Valid()
      invariant ret.Success? ==>
        && AllWrapped(rs[..i], wraps, cek, x)
        && var b := RecipientsBytes(OutgoingFor(rs[..i], wraps, cek, x));
           ctx.written == w + b && ctx.idx == start + |b| <= ctx.bufSz
      invariant ret.Fail? ==>
        !(AllWrapped(rs, wraps, cek, x) && start + |RecipientsBytes(OutgoingFor(rs, wraps, cek, x))| <= ctx.bufSz)
      decreases ret.Success?, |rs| - i
    {
      ghost var before := OutgoingFor(rs[..i], wraps, cek, x);
      if WrappedFor(rs[i], wraps, cek, x).Yields? {
        var o := Outgoing(rs[i].alg, RecipientKid(rs[i]), WrappedFor(rs[i], wraps, cek, x).bytes);
        OutgoingPrefix(rs, i, wraps, cek, x);
        RecipientsNext(before, o);
        Behind(w, RecipientsBytes(before), RecipientBytes(o));
        if AllWrapped(rs, wraps, cek, x) {
          PrefixRoom(rs, i + 1, wraps, cek, x);
        }
      }
      ret := EncodeWrapped(ctx, rs[i], wraps, cek, x);
      i := i + 1;
    }
    assert rs[..|rs|] == rs;
  }

  /** The message written into the output buffer. */
  method EncodeEncrypt(c: Encryption, prot: seq<byte>, aad: Bytes, encKey: Bytes, tagLen: nat, x: Ciphers, out: array<byte>)
    returns (ret: Status, outLen: nat)
    requires 0 < |c.rs| < U64_BOUND && c.outSz == out.Length && (c.payload.Some? || c.detached.Some?)
    requires Lawful(x) && x.tagLen(c.alg).Ok? && x.tagLen(c.alg).value == tagLen
    requires prot == AlgHeader(c.alg) && aad == Aad(c) && (Wraps(c) ==> WrapKeysOk(c.rs, x))
    modifies out
    ensures ret.Success? <==> Encoded(c, encKey, x).Some?
    ensures ret.Success? ==> outLen <= out.Length && Encoded(c, encKey, x) == Some(out[..outLen])
  {
    hide Encoder.Valid, AlgHeader, FrontBytes, Patch, IvMap, EncodeBstr, EncodeHead, HeadSize, RecipientsBytes, Lawful, Aad,
         WrapKeysOk, AllWrapped, OutgoingFor, IsKeyWrapAlg;
    outLen := 0;
    var ctx := new Encoder(out, 0, out.Length);
    ret := EncodeMessageFront(ctx, TAG_ENCRYPT, 4, prot, c.alg);
    if ret.Success? {
      ret := EncodeIvMap(ctx, c.iv);
    }
    if ret.Success? && c.detached.Some? {
      ret := Fail(Unsupported);
    }
    if ret.Success? {
      ret := SealInPlace(ctx, c.alg, encKey, c.iv, aad, c.payload.value, tagLen, x);
    }
    if ret.Success? {
      ret := ctx.EncodeArrayStart(|c.rs|);
    }
    if ret.Success? {
      ret := EncodeAllWrapped(ctx, c.rs, IsKeyWrapAlg(c.rs[0].alg), encKey, x);
    }
    if ret.Success? {
      ghost var ct := x.seal(c.alg, encKey, c.iv, aad, c.payload.value).bytes;
      ghost var os := OutgoingFor(c.rs, Wraps(c), encKey, x);
      Nothing(FrontBytes(TAG_ENCRYPT, 4, c.alg));
      Grouped(FrontBytes(TAG_ENCRYPT, 4, c.alg) + IvMap(c.iv), EncodeBstr(ct), EncodeHead(ARRAY, |c.rs|), RecipientsBytes(os));
      assert ctx.written == EncryptMessage(c.alg, c.iv, ct, os);
      ctx.Done();
      outLen := ctx.idx;
      PatchPrefix(ctx.was, ctx.written);
      assert out[..outLen] == out[..][..outLen];
    }
  }

  lemma Grouped(w: seq<byte>, a: seq<byte>, b: seq<byte>, c: seq<byte>)
    ensures w + a + b + c == w + (a + b + c)
  {
    assert w + a + b + c == w + (a + b + c);
  }

  /** `wc_CoseEncrypt_Encrypt`. */
  method CreateEncrypted(c: Encryption, x: Ciphers, scratch: array<byte>, out: array<byte>)
    returns (ret: Status, outLen: nat)
    requires |c.rs| < U64_BOUND && c.scratchSz == scratch.Length && c.outSz == out.Length && scratch != out
    requires Lawful(x)
    modifies scratch, out
    ensures ret.Success? <==> Encrypted(c, x).Some?
    ensures ret.Success? ==> outLen <= out.Length && Encrypted(c, x) == Some(out[..outLen])
    ensures ret.Fail? ==> out[..] == Zeros(out.Length)
    ensures scratch[..] == Zeros(scratch.Length)
  {
    hide Encrypted, Zeros, Lawful;
    ret, outLen := MakeEncrypted(c, x, scratch, out);
    ghost var made := out[..];
    EraseAfter(ret, scratch, out);
    assert ret.Success? ==> out[..outLen] == made[..outLen];
  }

  /** The message, before anything is erased. */
  method MakeEncrypted(c: Encryption, x: Ciphers, scratch: array<byte>, out: array<byte>)
    returns (ret: Status, outLen: nat)
    requires |c.rs| < U64_BOUND && c.scratchSz == scratch.Length && c.outSz == out.Length && scratch != out
    requires Lawful(x)
    modifies scratch, out
    ensures ret.Success? <==> Encrypted(c, x).Some?
    ensures ret.Success? ==> outLen <= out.Length && Encrypted(c, x) == Some(out[..outLen])
  {
    hide Encoder.Valid, AlgHeader, EncryptMessage, Patch, OnlyWithin, IsUtf8, EncStructure, Lawful, WrapKeysOk, AllDirect,
         KeysOk, KidsOk, AllWrapped, OutgoingFor, Encoded, AllDirect;
    outLen := 0;
    ret := CheckEncryption(c, x);
    if ret.Fail? {
      return;
    }
    var encKey;
    ret, encKey := ChooseKey(c, x);
    if ret.Fail? {
      return;
    }
    var protectedBuf := new byte[PROTECTED_HDR_MAX];
    var protectedLen, structLen;
    ret, protectedLen := EncodeProtectedHdr(c.alg, protectedBuf);
    var prot := protectedBuf[..protectedLen];
    EncryptContextIsText();
    ghost var was := scratch[..];
    ret, structLen := BuildEncStructure(CONTEXT_ENCRYPT, prot, c.extAad, scratch, 0, scratch.Length);
    if ret.Fail? {
      return;
    }
    PatchPrefix(was, Aad(c));
    assert scratch[..structLen] == scratch[..][..structLen];
    ret, outLen := EncodeEncrypt(c, prot, scratch[..structLen], encKey, x.tagLen(c.alg).value, x, out);
  }

  lemma EncryptContextIsText()
    ensures IsUtf8(CONTEXT_ENCRYPT) && |CONTEXT_ENCRYPT| <= 10
  {
    MessageContexts(CONTEXT_ENCRYPT);
  }

  // ----- Decrypting -----

  /** The checks of a recipient's algorithm, once both buckets are decoded. */
  method CheckRecipient(alg: i64, prot: seq<byte>, mode: int, v: Verifier, contentAlg: i64, contentProtected: bool)
    returns (ret: Status, mode': int)
    ensures ret == LatePolicy(alg, prot, mode, v, contentAlg, contentProtected)
    ensures ret.Success? ==> NextMode(alg, mode) == Some(mode')
  {
    hide Mode;
    mode' := mode;
    ret := KeyAlgStatus(v.key, alg, contentAlg);
    if ret.Success? {
      ret, mode' := UpdateRecipientMode(alg, mode);
    }
    if ret.Success? && alg == ALG_DIRECT && |prot| != 0 {
      ret := Fail(CoseBadHdr);
    }
    if ret.Success? && alg != ALG_DIRECT && !IsKeyWrapAlg(alg) {
      ret := Fail(CoseBadAlg);
    }
    if ret.Success? && IsKeyWrapAlg(alg) && |prot| != 0 {
      ret := Fail(CoseBadHdr);
    }
    if ret.Success? && v.policy != ALG_UNSET && v.policy != alg {
      ret := Fail(CoseBadAlg);
    }
    if ret.Success? && !contentProtected && (alg != ALG_DIRECT || v.key.None? || v.key.value.alg != contentAlg) {
      ret := Fail(CoseBadAlg);
    }
  }

  /** The value of the selected recipient. */
  method DecodeRecipientValue(ctx: Decoder, alg: i64) returns (ret: Status, wrapped: seq<byte>)
    modifies ctx
    ensures var r := RecipientValue(ctx.cbuf, old(ctx.idx), alg);
      && ret == r.Status() && (ret.Success? ==> ctx.idx == r.next && wrapped == r.value)
  {
    hide DecodeString, DecodeHead;
    wrapped := [];
    if IsKeyWrapAlg(alg) {
      ret, wrapped := ctx.DecodeBstr(false);
      if ret.Success? && |wrapped| < 24 {
        ret := Fail(CborMalformed);
      }
      return;
    }
    var isNull := ctx.idx < |ctx.cbuf| && ctx.cbuf[ctx.idx] == NULL_BYTE;
    var item;
    ret, item := ctx.DecodeHead(false);
    if ret.Success? && alg == ALG_DIRECT && (item.major != BSTR || |item.data| != 0) {
      ret := Fail(CoseBadHdr);
    } else if ret.Success? && !isNull && item.major != BSTR {
      ret := Fail(CborType);
    } else if ret.Success? && !isNull && |item.data| != 0 {
      ret := Fail(CborMalformed);
    }
  }

  /** Both buckets of the selected recipient, with a first look at its policy between them. */
  method DecodeRecipientBuckets(ctx: Decoder, v: Verifier, contentAlg: i64)
    returns (ret: Status, prot: seq<byte>, alg: i64)
    requires |ctx.cbuf| <= SIZE_MAX
    modifies ctx
    ensures var r := BucketsWithPolicy(ctx.cbuf, old(ctx.idx), v, contentAlg);
      && ret == r.Status()
      && (ret.Success? ==> ctx.idx == r.next && prot == r.value.prot && alg == BodyAlg(ctx.cbuf, r.value))
  {
    hide ProtectedHdr, UnprotectedHdr, DecodeString, Labels, HdrState.Valid, AlgField, BstrField, ContentTypeField, EarlyPolicy;
    prot, alg := [], ALG_UNSET;
    var hdr := new Hdr();
    var hdrState := new HdrState();
    ghost var at := ctx.idx;
    ret, prot := ctx.DecodeBstr(false);
    if ret.Fail? {
      return;
    }
    BstrSized(ctx.cbuf, at);
    ret := DecodeProtectedHdr(prot, hdr, hdrState, false);
    if ret.Fail? {
      return;
    }
    IvOfProtected(prot);
    ret := EarlyPolicy(hdr.alg, v, contentAlg);
    if ret.Success? {
      ret := DecodeUnprotectedHdr(ctx, hdr, hdrState, false);
    }
    alg := hdr.alg;
  }

  /** The selected recipient. */
  method SelectRecipient(ctx: Decoder, mode: int, v: Verifier, contentAlg: i64, contentProtected: bool)
    returns (ret: Status, chosen: Selected)
    requires |ctx.cbuf| <= SIZE_MAX
    modifies ctx
    ensures var r := SelectedRecipient(ctx.cbuf, old(ctx.idx), mode, v, contentAlg, contentProtected);
      && ret == r.Status() && (ret.Success? ==> ctx.idx == r.next && chosen == r.value)
  {
    hide DecodeContainer, BucketsWithPolicy, BodyAlg, LatePolicy, NextMode, RecipientValue;
    chosen := Selected(ALG_UNSET, mode, []);
    var count;
    ret, count := ctx.DecodeArray(false);
    if ret.Success? && count != 3 {
      ret := Fail(CborMalformed);
    }
    if ret.Fail? {
      return;
    }
    var prot, alg, recipientMode, wrapped;
    ret, prot, alg := DecodeRecipientBuckets(ctx, v, contentAlg);
    if ret.Fail? {
      return;
    }
    ret, recipientMode := CheckRecipient(alg, prot, mode, v, contentAlg, contentProtected);
    if ret.Fail? {
      return;
    }
    ret, wrapped := DecodeRecipientValue(ctx, alg);
    chosen := Selected(alg, recipientMode, wrapped);
  }

  /** What parsing leaves in the local variables of the decrypter. */
  datatype Opened = Opened(prot: seq<byte>, alg: i64, iv: seq<byte>, ct: seq<byte>, chosen: Selected)

  /** Parsing, with one recipient selected. */
  method DecodeEncrypt(s: seq<byte>, recipientIndex: nat, detached: Option<seq<byte>>, v: Verifier, x: Ciphers)
    returns (ret: Status, p: Opened)
    requires |s| <= SIZE_MAX
    ensures var r := ParseEncrypt(s, recipientIndex, detached, v, x);
      && ret == r.Status()
      && (ret.Success? ==>
            p == Opened(r.value.body.prot, r.value.alg, r.value.iv, r.value.content.bytes, r.value.chosen))
  {
    hide MessageFront, ContentField, SelectionOf, BodyAlg, BodyIv, AlgProtected;
    p := Opened([], ALG_UNSET, [], [], Selected(ALG_UNSET, MODE_NONE, []));
    var ctx := new Decoder(s);
    var prot, alg, iv, algProtected;
    ret, prot, alg, iv, algProtected := DecodeFront(ctx, TAG_ENCRYPT, 4);
    if ret.Fail? {
      return;
    }
    var nonce := if iv.Some? then iv.value else [];
    var expected := x.nonceLen(alg);
    if expected.Err? {
      return Fail(expected.error), p;
    }
    if |nonce| != expected.value {
      return Fail(CoseBadHdr), p;
    }
    var content, chosen;
    ret, content := DecodeContent(ctx, detached);
    if ret.Fail? {
      return;
    }
    ret, chosen := DecodeSelection(ctx, recipientIndex, v, alg, algProtected);
    p := Opened(prot, alg, nonce, content.bytes, chosen);
  }

  /** The recipients, to the end of the message, with one selected. */
  method DecodeSelection(ctx: Decoder, recipientIndex: nat, v: Verifier, contentAlg: i64, contentProtected: bool)
    returns (ret: Status, chosen: Selected)
    requires |ctx.cbuf| <= SIZE_MAX
    modifies ctx
    ensures var r := SelectionOf(ctx.cbuf, old(ctx.idx), recipientIndex, v, contentAlg, contentProtected);
      ret == r.Status() && (ret.Success? ==> chosen == r.value)
  {
    hide DecodeContainer, SkipOthers, SelectedRecipient;
    chosen := Selected(ALG_UNSET, MODE_NONE, []);
    var recipientsCount, recipientMode;
    ret, recipientsCount := ctx.DecodeArray(false);
    if ret.Success? && recipientIndex >= recipientsCount {
      ret := Fail(InvalidArg);
    }
    if ret.Fail? {
      return;
    }
    ret, recipientMode := SkipRecipients(ctx, recipientIndex, MODE_NONE);
    if ret.Fail? {
      return;
    }
    ret, chosen := SelectRecipient(ctx, recipientMode, v, contentAlg, contentProtected);
    if ret.Fail? {
      return;
    }
    ret, recipientMode := SkipRecipients(ctx, recipientsCount - recipientIndex - 1, chosen.mode);
    if ret.Success? && ctx.idx != |ctx.cbuf| {
      ret := Fail(CborMalformed);
    }
  }

  /** The key that opens the content. */
  method DecryptionKey(p: Opened, v: Verifier, keyLen: nat, x: Ciphers) returns (r: Crypt)
    ensures r == OpeningKey(p.chosen, v, keyLen, x)
  {
    if IsKeyWrapAlg(p.chosen.alg) {
      if v.key.None? || !v.key.value.symmetric {
        return Fails(CoseKeyType);
      }
      r := x.unwrap(p.chosen.alg, v.key.value.bytes, p.chosen.value);
      if r.Yields? && |r.bytes| != keyLen {
        r := Fails(CoseKeyType);
      }
    } else if v.key.None? || !v.key.value.symmetric || |v.key.value.bytes| != keyLen || keyLen > SIZE_MAX {
      r := Fails(CoseKeyType);
    } else {
      r := Yields(v.key.value.bytes);
    }
  }

  /** `wc_CoseEncrypt_Decrypt`: the plaintext. */
  method DecryptMessage(s: seq<byte>, recipientIndex: nat, detached: Option<Bytes>, extAad: Field, scratch: array<byte>,
                        plaintextSz: nat, v: Verifier, x: Ciphers) returns (ret: Status, plaintext: seq<byte>)
    requires |s| <= SIZE_MAX
    modifies scratch
    ensures var fits := |s| <= WORD32_MAX && (detached.Some? ==> |detached.value| <= WORD32_MAX)
                        && |extAad| <= WORD32_MAX && scratch.Length <= WORD32_MAX && plaintextSz <= WORD32_MAX;
      var r := Decrypt(s, recipientIndex, detached, extAad, scratch.Length, plaintextSz, v, x);
      && (fits ==> ret == r.Status())
      && (!fits ==> ret == Fail(InvalidArg))
      && (ret.Success? ==> plaintext == r.value)
  {
    hide ParseEncrypt, EncStructure, Patch, OnlyWithin, IsUtf8, OpeningKey;
    plaintext := [];
    if |s| == 0 {
      return Fail(InvalidArg), plaintext;
    }
    if |s| > WORD32_MAX || (detached.Some? && |detached.value| > WORD32_MAX) || |extAad| > WORD32_MAX
       || scratch.Length > WORD32_MAX || plaintextSz > WORD32_MAX {
      return Fail(InvalidArg), plaintext;
    }
    var p;
    ret, p := DecodeEncrypt(s, recipientIndex, detached, v, x);
    if ret.Fail? {
      return;
    }
    EncryptSized(s, recipientIndex, detached, v, x);
    var keyLen, tagLen := x.keyLen(p.alg), x.tagLen(p.alg);
    if keyLen.Err? {
      return Fail(keyLen.error), plaintext;
    }
    if tagLen.Err? {
      return Fail(tagLen.error), plaintext;
    }
    var key := DecryptionKey(p, v, keyLen.value, x);
    if key.Fails? {
      return Fail(key.error), plaintext;
    }
    if |p.ct| < tagLen.value || x.payloadLen(p.alg, |p.ct| - tagLen.value).Fail? {
      return Fail(CborMalformed), plaintext;
    }
    if |p.ct| - tagLen.value > plaintextSz {
      return Fail(CborOverflow), plaintext;
    }
    EncryptContextIsText();
    ghost var was, aad := scratch[..], EncStructure(CONTEXT_ENCRYPT, p.prot, extAad);
    var structLen;
    ret, structLen := BuildEncStructure(CONTEXT_ENCRYPT, p.prot, extAad, scratch, 0, scratch.Length);
    if ret.Fail? {
      return;
    }
    PatchPrefix(was, aad);
    assert scratch[..structLen] == scratch[..][..structLen];
    var unsealed := x.open(p.alg, key.bytes, p.iv, scratch[..structLen], p.ct);
    match unsealed
    case Fails(e) =>
      ret := Fail(e);
    case Yields(bytes) =>
      plaintext := bytes;
  }
}
