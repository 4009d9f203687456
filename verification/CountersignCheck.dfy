/**
 The two verification calls, proved against the functions of CountersignVerify.dfy.
 */
module CountersignCheck {
  import opened Wire
  import opened Memory
  import opened CborContext
  import opened CborEncoder
  import opened Header
  import opened HeaderContext
  import opened Recipients
  import opened Countersign
  import CountersignContext
  import opened CountersignReparse
  import opened CountersignVerify
  import opened CountersignBuild
  import opened CountersignAttach
  import opened CountersignAdd

  /** The scratch buffer shares bytes with what is read. */
  ghost predicate ScratchOverlaps(scratch: Span, input: Span, detached: Option<Span>, extAad: Option<Span>) {
    scratch.Overlaps(input) || OptOverlaps(scratch, detached) || OptOverlaps(scratch, extAad)
  }

  predicate LengthsFit(scratch: Span, input: Span, detached: Option<Span>, extAad: Option<Span>) {
    && input.len <= WORD32_MAX && (detached.Some? ==> detached.value.len <= WORD32_MAX)
    && (extAad.Some? ==> extAad.value.len <= WORD32_MAX) && scratch.len <= WORD32_MAX
  }

  /** The arguments that both calls refuse. */
  method CheckVerifyArguments(scratch: Span, input: Span, detached: Option<Span>, extAad: Option<Span>)
    returns (ret: Status)
    ensures ret == if LengthsFit(scratch, input, detached, extAad) && !ScratchOverlaps(scratch, input, detached, extAad)
                   then Success else Fail(InvalidArg)
  {
    hide Span.Overlaps;
    var lensOk, scratchAliases := LengthsFit(scratch, input, detached, extAad), false;
    if lensOk {
      scratchAliases := RangesOverlap(scratch, input);
      if !scratchAliases && detached.Some? {
        scratchAliases := RangesOverlap(scratch, detached.value);
      }
      if !scratchAliases && extAad.Some? {
        scratchAliases := RangesOverlap(scratch, extAad.value);
      }
    }
    ret := if scratchAliases || !lensOk then Fail(InvalidArg) else Success;
  }

  /** The structure is built in the scratch buffer and checked there. */
  method CheckStructure(t: Target, signProtected: Option<seq<byte>>, extAad: seq<byte>, legacy: bool, scratch: Span,
                        alg: i64, sig: seq<byte>, verify: Verifier) returns (ret: Status)
    requires Sized(t) && |extAad| <= SIZE_MAX && scratch.Valid()
    requires signProtected.Some? ==> |signProtected.value| <= SIZE_MAX
    modifies scratch.mem
    ensures var tbs := CounterStructure(t, signProtected, extAad, legacy);
      ret == if |tbs| > scratch.len then Fail(BufferTooSmall) else verify(alg, tbs, sig)
    ensures OnlyWithin(old(scratch.mem[..]), scratch.mem[..], scratch.off, scratch.len)
  {
    hide CounterStructure, Patch, OnlyWithin;
    ghost var a := scratch.mem[..];
    var tbsLen;
    ret, tbsLen := BuildCounterStructure(t, signProtected, extAad, legacy, scratch.mem, scratch.off, scratch.len);
    if ret.Success? {
      ghost var tbs := CounterStructure(t, signProtected, extAad, legacy);
      AtIsPatch(a, scratch.off, tbs);
      assert scratch.mem[scratch.off..scratch.off + tbsLen] == scratch.mem[..][scratch.off..scratch.off + tbsLen];
      ret := verify(alg, scratch.mem[scratch.off..scratch.off + tbsLen], sig);
    }
  }

  /** The algorithm that a decoded header record ends up with. */
  lemma AlgOfFields(c: seq<byte>, p: CounterParts)
    ensures FieldsAfter(c, p.us, Unprotected, FieldsAfter(p.prot, p.ps, Protected, BLANK, false), false).alg
         == CounterAlg(c, p)
  {
    hide AlgField, ContentTypeField, BstrField;
  }

  /** A selected countersignature, checked over the message. */
  method CheckSelected(t: Target, c: seq<byte>, legacy: bool, extAad: seq<byte>, scratch: Span, keyAlg: i64,
                       verify: Verifier) returns (ret: Status, hdr: Fields)
    requires Sized(t) && |c| <= SIZE_MAX && |extAad| <= SIZE_MAX && scratch.Valid()
    modifies scratch.mem
    ensures ret == VerifyCounter(t, c, legacy, extAad, scratch.len, keyAlg, verify)
    ensures ret.Success? ==> FullCounter(c).Ok? && hdr.alg == CounterAlg(c, FullCounter(c).value)
    ensures OnlyWithin(old(scratch.mem[..]), scratch.mem[..], scratch.off, scratch.len)
  {
    hide FullCounter, CounterStructure, CounterAlg, Labels, OnlyWithin, FieldsAfter;
    hdr := BLANK;
    WithinSelf(scratch.mem[..], scratch.off, scratch.len);
    var parts;
    ret, parts := CountersignContext.DecodeFullCounter(c);
    if ret.Fail? {
      return;
    }
    CounterSized(c);
    AlgOfFields(c, FullCounter(c).value);
    if !parts.algProtected && (keyAlg == ALG_UNSET || keyAlg != parts.hdr.alg) {
      return Fail(CoseBadAlg), hdr;
    }
    ret := CheckStructure(t, Some(parts.prot), extAad, legacy, scratch, parts.hdr.alg, parts.sig, verify);
    if ret.Success? {
      hdr := parts.hdr;
    }
  }

  /** `wc_Cose_VerifyCounterSignature`. */
  method VerifyCounterSignature(keyAlg: i64, counterIndex: nat, input: Span, detached: Option<Span>,
                                extAad: Option<Span>, scratch: Span, verify: Verifier)
    returns (ret: Status, counterHdr: Fields)
    requires input.Valid() && scratch.Valid() && OptValid(detached) && OptValid(extAad)
    modifies scratch.mem
    ensures ret == if !LengthsFit(scratch, input, detached, extAad) || ScratchOverlaps(scratch, input, detached, extAad)
                   then Fail(InvalidArg)
                   else VerifyFull(old(input.Bytes()), old(OptBytes(detached)), counterIndex, old(BytesOf(OptBytes(extAad))),
                                   scratch.len, keyAlg, verify)
    ensures OnlyWithin(old(scratch.mem[..]), scratch.mem[..], scratch.off, scratch.len)
  {
    hide Span.Overlaps, ParseTarget, Countersign.SelectFullCounter, VerifyCounter, OnlyWithin;
    counterHdr := BLANK;
    WithinSelf(scratch.mem[..], scratch.off, scratch.len);
    ret := CheckVerifyArguments(scratch, input, detached, extAad);
    if ret.Fail? {
      return;
    }
    var s, aad, det := input.Bytes(), BytesOf(OptBytes(extAad)), OptBytes(detached);
    var target;
    ret, target := CountersignContext.ParseCounterTarget(s, det);
    if ret.Fail? {
      return;
    }
    TargetSized(s, det);
    var t := target.View();
    if t.full.None? && t.legacyFull.None? {
      return Fail(CoseBadHdr), counterHdr;
    }
    var legacy := t.full.None?;
    var value := FullValue(s, if legacy then t.legacyFull.value else t.full.value);
    var selected;
    ret, selected := CountersignContext.SelectFullCounter(value, counterIndex);
    if ret.Success? {
      ret, counterHdr := CheckSelected(t, selected, legacy, aad, scratch, keyAlg, verify);
    }
  }

  /** `wc_Cose_VerifyCounterSignature0`. */
  method VerifyCounterSignature0(alg: i64, input: Span, detached: Option<Span>, extAad: Option<Span>, scratch: Span,
                                 verify: Verifier) returns (ret: Status)
    requires input.Valid() && scratch.Valid() && OptValid(detached) && OptValid(extAad)
    modifies scratch.mem
    ensures ret == if !LengthsFit(scratch, input, detached, extAad) || ScratchOverlaps(scratch, input, detached, extAad)
                   then Fail(InvalidArg)
                   else VerifyAbbreviated(old(input.Bytes()), old(OptBytes(detached)), old(BytesOf(OptBytes(extAad))),
                                          scratch.len, alg, verify)
    ensures OnlyWithin(old(scratch.mem[..]), scratch.mem[..], scratch.off, scratch.len)
  {
    hide Span.Overlaps, ParseTarget, OnlyWithin, CounterStructure, Cbor.DecodeBstr;
    WithinSelf(scratch.mem[..], scratch.off, scratch.len);
    ret := CheckVerifyArguments(scratch, input, detached, extAad);
    if ret.Fail? {
      return;
    }
    var s, aad, det := input.Bytes(), BytesOf(OptBytes(extAad)), OptBytes(detached);
    var target;
    ret, target := CountersignContext.ParseCounterTarget(s, det);
    if ret.Fail? {
      return;
    }
    TargetSized(s, det);
    var t := target.View();
    if t.abbreviated.None? && t.legacyAbbreviated.None? {
      return Fail(CoseBadHdr);
    }
    var legacy := t.abbreviated.None?;
    var value := FullValue(s, if legacy then t.legacyAbbreviated.value else t.abbreviated.value);
    var ctx := new Decoder(value);
    var sig;
    ret, sig := ctx.DecodeBstr(false);
    if ret.Success? && ctx.idx != |value| {
      ret := Fail(CborMalformed);
    }
    if ret.Success? {
      ret := CheckStructure(t, None, aad, legacy, scratch, alg, sig, verify);
    }
  }
}
