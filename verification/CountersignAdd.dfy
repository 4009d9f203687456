/**
 Adding a countersignature: all checks come before the signer, and once the signer
 returns a signature of the predicted length nothing can fail any more.
 */
module CountersignAdd {
  import opened Wire
  import opened Memory
  import opened Cbor
  import opened CborRoundTrip
  import opened CborEncoder
  import opened Header
  import opened Countersign
  import CountersignContext
  import opened CountersignReparse
  import opened CountersignKeeps
  import opened CountersignVerify
  import opened CountersignPlan
  import opened CountersignBuild
  import opened CountersignAttach

  const PROTECTED_HDR_MAX := 64

  /** A size, and bytes, that fit in memory. */
  type Size = n: int | 0 <= n <= SIZE_MAX
  type Bytes = b: seq<byte> | |b| <= SIZE_MAX

  /** The signature length a key and an algorithm promise, or their refusal. */
  datatype SigLen = Predicted(n: Size) | Refused(error: Error)

  /** What a signer returns for the bytes it is given. */
  datatype Signing = Signed(sig: Bytes) | NotSigned(error: Error)

  /** What a call is given; pointers that may be null are optional. */
  datatype Call = Call(alg: i64, kid: Option<Bytes>, abbreviated: bool, message: seq<byte>,
                       detached: Option<seq<byte>>, extAad: Option<seq<byte>>, scratchSz: nat, outSz: nat,
                       sigLen: SigLen)

  function LenOf(o: Option<seq<byte>>): (n: nat) {
    match o { case None => 0 case Some(b) => |b| }
  }

  function BytesOf(o: Option<seq<byte>>): (b: seq<byte>) {
    match o { case None => [] case Some(b) => b }
  }

  /** All lengths that wolfCrypt will see fit 32 bits. */
  predicate Fits(c: Call) {
    && |c.message| <= WORD32_MAX && LenOf(c.detached) <= WORD32_MAX && LenOf(c.extAad) <= WORD32_MAX
    && c.scratchSz <= WORD32_MAX && c.outSz <= WORD32_MAX
  }

  /** The protected bucket of the countersignature. */
  function Prot(c: Call): (b: seq<byte>)
    ensures |b| <= 11
  {
    if c.abbreviated then [] else AlgHeader(c.alg)
  }

  /** The bytes that are signed. */
  function ToSign(c: Call, t: Target): (b: seq<byte>)
    requires Fits(c) && Sized(t)
  {
    CounterStructure(t, if c.abbreviated then None else Some(Prot(c)), BytesOf(c.extAad), false)
  }

  /** Everything that is decided before the signer is reached: `Success`, or the refusal. */
  function BeforeSigning(c: Call, aliased: bool): (r: Status)
  {
    if c.kid == Some([]) then Fail(InvalidArg)
    else if c.alg == ALG_HSS_LMS then Fail(CoseBadAlg)
    else if !Fits(c) || aliased then Fail(InvalidArg)
    else
      match ParseTarget(c.message, c.detached)
      case Err(e) => Fail(e)
      case Ok(t, _) =>
        TargetSized(c.message, c.detached);
        SignStatus(c, t)
  }

  function SignStatus(c: Call, t: Target): (r: Status)
    requires Fits(c) && Sized(t)
  {
    match c.sigLen
    case Refused(e) => Fail(e)
    case Predicted(n) =>
      if n > c.scratchSz || |ToSign(c, t)| > c.scratchSz - n then Fail(BufferTooSmall)
      else PlanStatus(c.message, t, c.abbreviated, CounterLen(c.abbreviated, |Prot(c)|, LenOf(c.kid), n), c.outSz)
  }

  lemma PlannedGrows(s: seq<byte>, t: Target, abbreviated: bool, counterLen: nat, outSz: nat)
    requires PlanStatus(s, t, abbreviated, counterLen, outSz).Success?
    ensures Replaces(t, abbreviated) ==> Growable(s, t.full.value)
    ensures !Replaces(t, abbreviated) ==> t.mapCount < MAX_MAP_ITEMS
    ensures AttachedLen(s, t, abbreviated, counterLen) <= SIZE_MAX && AttachedLen(s, t, abbreviated, counterLen) <= outSz
  {
    hide CounterListInfo, Growable, AttachedLen;
  }

  /** The parsed message of a call that gets as far as the signer. */
  function TargetFor(c: Call): (t: Target)
    requires BeforeSigning(c, false).Success?
    ensures Fits(c) && c.sigLen.Predicted? && Sized(t) && ParseTarget(c.message, c.detached).Ok?
    ensures t == ParseTarget(c.message, c.detached).value && SignStatus(c, t).Success?
  {
    TargetSized(c.message, c.detached);
    ParseTarget(c.message, c.detached).value
  }

  /** The bytes that such a call signs. */
  function Tbs(c: Call): (b: seq<byte>)
    requires BeforeSigning(c, false).Success?
  {
    ToSign(c, TargetFor(c))
  }

  /** What such a call writes, with a signature. */
  function Added(c: Call, sig: seq<byte>): (u: seq<byte>)
    requires |sig| <= SIZE_MAX
    requires BeforeSigning(c, false).Success?
  {
    var t := TargetFor(c);
    PlannedGrows(c.message, t, c.abbreviated, CounterLen(c.abbreviated, |Prot(c)|, LenOf(c.kid), c.sigLen.n), c.outSz);
    Attached(c.message, t, c.abbreviated, CounterBytes(c.abbreviated, Prot(c), BytesOf(c.kid), sig))
  }

  // ----- Buffers -----

  ghost predicate OptValid(o: Option<Span>) {
    o.Some? ==> o.value.Valid()
  }

  ghost predicate OptOverlaps(a: Span, o: Option<Span>) {
    o.Some? && a.Overlaps(o.value)
  }

  function OptBytes(o: Option<Span>): (b: Option<seq<byte>>)
    requires OptValid(o)
    reads if o.Some? then {o.value.mem} else {}
  {
    match o { case None => None case Some(x) => Some(x.Bytes()) }
  }

  /** Buffers that do not overlap lie apart, or one is empty. */
  lemma Apart(a: Span, b: Span)
    requires a.mem == b.mem && !a.Overlaps(b)
    ensures a.len == 0 || b.len == 0 || a.off + a.len <= b.off || b.off + b.len <= a.off
  {
    if a.len != 0 && b.len != 0 && a.off < b.off + b.len && b.off < a.off + a.len {
      var k := if a.off <= b.off then b.off else a.off;
      assert a.Holds(k) && b.Holds(k);
    }
  }

  /** A buffer that the written one does not overlap keeps its bytes; `was` and `now` are
      the arrays of the two buffers before and after the writing. */
  lemma Untouched(written: Span, other: Span, was: (seq<byte>, seq<byte>), now: (seq<byte>, seq<byte>))
    requires !written.Overlaps(other) && |was.0| == |now.0| == written.mem.Length
    requires |was.1| == |now.1| == other.mem.Length && written.Valid() && other.Valid()
    requires OnlyWithin(was.0, now.0, written.off, written.len)
    requires if other.mem == written.mem then was.1 == was.0 && now.1 == now.0 else was.1 == now.1
    ensures now.1[other.off..other.off + other.len] == was.1[other.off..other.off + other.len]
  {
    if other.mem == written.mem {
      Apart(written, other);
      WithinSlice(was.0, now.0, written.off, written.len, other.off, other.len);
    }
  }

  lemma WithinSlice(a: seq<byte>, b: seq<byte>, at: nat, size: nat, i: nat, n: nat)
    requires OnlyWithin(a, b, at, size) && i + n <= |a|
    requires size == 0 || n == 0 || i + n <= at || at + size <= i
    ensures a[i..i + n] == b[i..i + n]
  {
    if size == 0 {
      assert a == a[..at] + a[at..] && b == b[..at] + b[at..];
    } else if n > 0 {
      WithinKeeps(a, b, at, size, i, a[i..i + n]);
    }
  }

  /** Whether the scratch buffer shares a byte with any other. */
  method ScratchAliases(scratch: Span, input: Span, out: Span, kid: Option<Span>, detached: Option<Span>,
                        extAad: Option<Span>) returns (aliases: bool)
    ensures aliases <==> scratch.Overlaps(input) || scratch.Overlaps(out) || OptOverlaps(scratch, kid)
                         || OptOverlaps(scratch, detached) || OptOverlaps(scratch, extAad)
  {
    aliases := RangesOverlap(scratch, input);
    if !aliases {
      aliases := RangesOverlap(scratch, out);
    }
    if !aliases && kid.Some? {
      aliases := RangesOverlap(scratch, kid.value);
    }
    if !aliases && detached.Some? {
      aliases := RangesOverlap(scratch, detached.value);
    }
    if !aliases && extAad.Some? {
      aliases := RangesOverlap(scratch, extAad.value);
    }
  }

  // ----- The call -----

  ghost predicate Valid(input: Span, out: Span, scratch: Span, kid: Option<Span>, detached: Option<Span>,
                        extAad: Option<Span>) {
    input.Valid() && out.Valid() && scratch.Valid() && OptValid(kid) && OptValid(detached) && OptValid(extAad)
  }

  /** The call that buffers stand for. */
  function CallOf(alg: i64, kid: Option<Span>, abbreviated: bool, input: Span, detached: Option<Span>,
                        extAad: Option<Span>, scratch: Span, out: Span, sigLen: SigLen): (c: Call)
    requires Valid(input, out, scratch, kid, detached, extAad) && (kid.Some? ==> kid.value.len <= SIZE_MAX)
    reads input.mem, if kid.Some? then {kid.value.mem} else {}, if detached.Some? then {detached.value.mem} else {},
          if extAad.Some? then {extAad.value.mem} else {}
  {
    Call(alg, OptBytes(kid), abbreviated, input.Bytes(), OptBytes(detached), OptBytes(extAad), scratch.len, out.len,
         sigLen)
  }

  /** Buffers share bytes that must not be shared. */
  ghost predicate Aliased(input: Span, out: Span, scratch: Span, kid: Option<Span>, detached: Option<Span>,
                          extAad: Option<Span>) {
    || scratch.Overlaps(input) || scratch.Overlaps(out) || OptOverlaps(scratch, kid)
    || OptOverlaps(scratch, detached) || OptOverlaps(scratch, extAad)
    || (!input.SameStart(out) && input.Overlaps(out))
    || (kid.Some? && kid.value.Overlaps(out))
  }

  /** The checks on arguments and buffers. */
  method CheckArguments(alg: i64, kid: Option<Span>, input: Span, detached: Option<Span>, extAad: Option<Span>,
                        scratch: Span, out: Span) returns (ret: Status)
    requires Valid(input, out, scratch, kid, detached, extAad)
    ensures ret == if kid.Some? && kid.value.len == 0 then Fail(InvalidArg)
                   else if alg == ALG_HSS_LMS then Fail(CoseBadAlg)
                   else if input.len > WORD32_MAX || (detached.Some? && detached.value.len > WORD32_MAX)
                           || (extAad.Some? && extAad.value.len > WORD32_MAX)
                           || scratch.len > WORD32_MAX || out.len > WORD32_MAX
                           || Aliased(input, out, scratch, kid, detached, extAad) then Fail(InvalidArg)
                   else Success
  {
    hide Span.Overlaps;
    ret := Success;
    if kid.Some? && kid.value.len == 0 {
      ret := Fail(InvalidArg);
    }
    if ret.Success? && alg == ALG_HSS_LMS {
      ret := Fail(CoseBadAlg);
    }
    var lensOk, scratchAliases := true, false;
    if input.len > WORD32_MAX || (detached.Some? && detached.value.len > WORD32_MAX)
       || (extAad.Some? && extAad.value.len > WORD32_MAX) || scratch.len > WORD32_MAX || out.len > WORD32_MAX {
      lensOk := false;
      if ret.Success? {
        ret := Fail(InvalidArg);
      }
    }
    if lensOk {
      scratchAliases := ScratchAliases(scratch, input, out, kid, detached, extAad);
    }
    if ret.Success? && scratchAliases {
      ret := Fail(InvalidArg);
    }
    if ret.Success? && !input.SameStart(out) {
      var overlaps := RangesOverlap(input, out);
      if overlaps {
        ret := Fail(InvalidArg);
      }
    }
    if ret.Success? && kid.Some? {
      var overlaps := RangesOverlap(kid.value, out);
      if overlaps {
        ret := Fail(InvalidArg);
      }
    }
  }

  /** The structure to sign, in front of the room for the signature. */
  method BuildToSign(c: Call, t: Target, prot: seq<byte>, sigLen: nat, scratch: Span) returns (ret: Status, tbsLen: nat)
    requires scratch.Valid() && sigLen <= scratch.len && Fits(c) && Sized(t) && prot == Prot(c)
    modifies scratch.mem
    ensures ret == if |ToSign(c, t)| <= scratch.len - sigLen then Success else Fail(BufferTooSmall)
    ensures OnlyWithin(old(scratch.mem[..]), scratch.mem[..], scratch.off, scratch.len)
    ensures ret.Success? ==> tbsLen == |ToSign(c, t)| <= scratch.len && scratch.Bytes()[..tbsLen] == ToSign(c, t)
  {
    hide CounterStructure, AlgHeader, Patch, OnlyWithin;
    ghost var a := scratch.mem[..];
    ret, tbsLen := BuildCounterStructure(t, if c.abbreviated then None else Some(prot), BytesOf(c.extAad), false,
                                         scratch.mem, scratch.off, scratch.len - sigLen);
    WithinLarger(a, scratch.mem[..], scratch.off, scratch.len - sigLen, scratch.off, scratch.len);
    if ret.Success? {
      PatchPuts(a, scratch.off, ToSign(c, t));
      AtIs(scratch.mem[..], scratch.off, ToSign(c, t));
      assert scratch.Bytes() == scratch.mem[..][scratch.off..scratch.off + scratch.len];
      SubSlice(scratch.mem[..], scratch.off, scratch.off + scratch.len, 0, tbsLen);
      assert scratch.Bytes()[..tbsLen] == scratch.Bytes()[0..tbsLen];
    }
  }

  /** Nothing can refuse the call any more, and the edit is planned. */
  ghost predicate Ready(c: Call, t: Target, plan: Plan, prot: seq<byte>) {
    && BeforeSigning(c, false).Success? && t == TargetFor(c) && prot == Prot(c)
    && (Replaces(t, c.abbreviated) ==> Growable(c.message, t.full.value))
    && PlanFor(plan, c.message, t, c.abbreviated, CounterLen(c.abbreviated, |prot|, LenOf(c.kid), c.sigLen.n))
    && plan.finalLen <= c.outSz
  }

  /** Parsing, sizing and building: everything that can refuse the call before the signer.
      The structure to sign is at the front of `scratch` afterwards. */
  method Prepare(c: Call, scratch: Span) returns (ret: Status, t: Target, prot: seq<byte>, tbsLen: nat, plan: Plan)
    requires scratch.Valid() && scratch.len == c.scratchSz
    requires c.kid != Some([]) && c.alg != ALG_HSS_LMS && Fits(c)
    modifies scratch.mem
    ensures ret == BeforeSigning(c, false)
    ensures OnlyWithin(old(scratch.mem[..]), scratch.mem[..], scratch.off, scratch.len)
    ensures ret.Success? ==>
      && Ready(c, t, plan, prot) && tbsLen == |Tbs(c)| && c.sigLen.Predicted? && tbsLen + c.sigLen.n <= scratch.len
      && scratch.Bytes()[..tbsLen] == Tbs(c)
  {
    hide ParseTarget, CounterStructure, PlanStatus, PlanFor, Growable, CounterLen, AlgHeader, Patch, OnlyWithin;
    prot, tbsLen := [], 0;
    plan := Plan(ListInfo(0, 0, false), 0, 0, 0, 0, 0, 0, 0, false);
    var target;
    WithinSelf(scratch.mem[..], scratch.off, scratch.len);
    ret, target := CountersignContext.ParseCounterTarget(c.message, c.detached);
    t := target.View();
    if ret.Fail? {
      return;
    }
    TargetSized(c.message, c.detached);
    if c.sigLen.Refused? {
      return Fail(c.sigLen.error), t, prot, tbsLen, plan;
    }
    var sigLen := c.sigLen.n;
    if sigLen > c.scratchSz {
      return Fail(BufferTooSmall), t, prot, tbsLen, plan;
    }
    if !c.abbreviated {
      var protectedBuf := new byte[PROTECTED_HDR_MAX];
      var protectedLen;
      ret, protectedLen := EncodeProtectedHdr(c.alg, protectedBuf);
      prot := protectedBuf[..protectedLen];
    }
    ret, tbsLen := BuildToSign(c, t, prot, sigLen, scratch);
    if ret.Success? {
      ret, plan := PlanAttachCounter(t, c.message, c.detached, |prot|, LenOf(c.kid), sigLen, c.abbreviated, c.outSz);
    }
  }

  /** Signing into the scratch buffer, behind the structure; a signature of another length
      than the predicted one is refused. */
  method CounterSignTbs(scratch: Span, tbsLen: nat, sigLen: nat, sign: seq<byte> -> Signing)
    returns (ret: Status, sig: seq<byte>)
    requires scratch.Valid() && tbsLen + sigLen <= scratch.len
    modifies scratch.mem
    ensures OnlyWithin(old(scratch.mem[..]), scratch.mem[..], scratch.off, scratch.len)
    ensures var r := sign(old(scratch.Bytes()[..tbsLen]));
      && ret == (match r
                 case NotSigned(e) => Fail(e)
                 case Signed(b) => if |b| != sigLen then Fail(Crypto) else Success)
      && (ret.Success? ==> sig == r.sig)
  {
    hide Patch, OnlyWithin;
    sig := [];
    WithinSelf(scratch.mem[..], scratch.off, scratch.len);
    var r := sign(scratch.Bytes()[..tbsLen]);
    match r
    case NotSigned(e) =>
      ret := Fail(e);
    case Signed(b) =>
      var stored := if |b| <= sigLen then b else b[..sigLen];
      ghost var a := scratch.mem[..];
      Write(scratch.mem, scratch.off + tbsLen, stored);
      PatchWithin(a, scratch.off, scratch.len, scratch.off + tbsLen, stored);
      ret := Success;
      if |b| != sigLen {
        ret := Fail(Crypto);
      } else {
        AtIsPatch(a, scratch.off + tbsLen, stored);
        sig := scratch.mem[scratch.off + tbsLen..scratch.off + tbsLen + sigLen];
        assert sig == scratch.mem[..][scratch.off + tbsLen..scratch.off + tbsLen + sigLen];
      }
  }

  lemma AtIsPatch(a: seq<byte>, k: nat, b: seq<byte>)
    requires k + |b| <= |a|
    ensures Patch(a, k, b)[k..k + |b|] == b
  {
    PatchParts(a, k, b);
  }

  /** `wolfCose_AddCounterCommon`.  `signed` tells whether the signer was reached. */
  method AddCounterCommon(alg: i64, kid: Option<Span>, abbreviated: bool, input: Span, detached: Option<Span>,
                          extAad: Option<Span>, scratch: Span, out: Span, sigLen: SigLen, sign: seq<byte> -> Signing)
    returns (ret: Status, outLen: nat, ghost signed: bool)
    requires Valid(input, out, scratch, kid, detached, extAad)
    requires kid.Some? ==> kid.value.len <= SIZE_MAX
    modifies scratch.mem, out.mem
    ensures var c := old(CallOf(alg, kid, abbreviated, input, detached, extAad, scratch, out, sigLen));
      var aliased := Aliased(input, out, scratch, kid, detached, extAad);
      && (BeforeSigning(c, aliased).Fail? ==> ret == BeforeSigning(c, aliased) && !signed)
      && (BeforeSigning(c, aliased).Success? ==> Outcome(c, sign, ret, outLen, signed, old(out.Bytes()), out.Bytes()))
    ensures ret.Fail? ==> outLen == 0 && out.Bytes() == old(out.Bytes())
    ensures ret.Fail? || !input.SameStart(out) ==> input.Bytes() == old(input.Bytes())
  {
    hide OnlyWithin, Span.Overlaps, Added, Tbs, BeforeSigning, Span.SameStart, Fits;
    outLen, signed := 0, false;
    var c := CallOf(alg, kid, abbreviated, input, detached, extAad, scratch, out, sigLen);
    BeforeIs(c, Aliased(input, out, scratch, kid, detached, extAad));
    FitsIs(c);
    ret := CheckArguments(alg, kid, input, detached, extAad, scratch, out);
    if ret.Success? {
      ret, outLen, signed := AddChecked(c, kid, input, scratch, out, sign);
    }
  }

  lemma FitsIs(c: Call)
    ensures Fits(c) <==>
      && |c.message| <= WORD32_MAX && LenOf(c.detached) <= WORD32_MAX && LenOf(c.extAad) <= WORD32_MAX
      && c.scratchSz <= WORD32_MAX && c.outSz <= WORD32_MAX
  {
  }

  /** How a call whose arguments were accepted ends, with what is in the output buffer before
      and after it. */
  ghost predicate Outcome(c: Call, sign: seq<byte> -> Signing, ret: Status, outLen: nat, signed: bool,
                          was: seq<byte>, now: seq<byte>)
  {
    var before := BeforeSigning(c, false);
    && (before.Fail? ==> ret == before && !signed)
    && (before.Success? ==>
          && signed
          && var r := sign(Tbs(c));
             && ret == (match r
                        case NotSigned(e) => Fail(e)
                        case Signed(sig) => if |sig| != c.sigLen.n then Fail(Crypto) else Success)
             && (ret.Success? ==>
                   && |r.sig| <= SIZE_MAX && outLen == |Added(c, r.sig)| <= |now|
                   && now[..outLen] == Added(c, r.sig) && |now| == |was| && now[outLen..] == was[outLen..]))
    && (ret.Fail? ==> outLen == 0 && now == was)
  }

  /** The call once its arguments are accepted. */
  method AddChecked(c: Call, kid: Option<Span>, input: Span, scratch: Span, out: Span, sign: seq<byte> -> Signing)
    returns (ret: Status, outLen: nat, ghost signed: bool)
    requires c.kid != Some([]) && c.alg != ALG_HSS_LMS && Fits(c)
    requires scratch.Valid() && input.Valid() && out.Valid() && OptValid(kid)
    requires c.message == input.Bytes() && c.kid == OptBytes(kid) && c.scratchSz == scratch.len && c.outSz == out.len
    requires !scratch.Overlaps(input) && !scratch.Overlaps(out) && !OptOverlaps(scratch, kid)
    modifies scratch.mem, out.mem
    ensures Outcome(c, sign, ret, outLen, signed, old(out.Bytes()), out.Bytes())
    ensures ret.Fail? || (!input.SameStart(out) && !input.Overlaps(out)) ==> input.Bytes() == old(input.Bytes())
  {
    hide OnlyWithin, Span.Overlaps, Added, Tbs, BeforeSigning, Ready, Fits, Outcome;
    outLen, signed := 0, false;
    ghost var was := out.Bytes();
    ghost var a, inWas, outWas := scratch.mem[..], input.mem[..], out.mem[..];
    ghost var kidWas := KidArray(kid);
    var t, prot, tbsLen, plan;
    ret, t, prot, tbsLen, plan := Prepare(c, scratch);
    KeptAll(c, scratch, input, out, kid, a, inWas, outWas, kidWas);
    if ret.Fail? {
      OutcomeRefused(c, sign, ret, was);
    } else {
      signed := true;
      ret, outLen := SignAndAttach(c, t, plan, prot, tbsLen, kid, input, scratch, out, sign);
    }
  }

  /** Everything is planned, and the structure to sign is in the scratch buffer. */
  method SignAndAttach(c: Call, t: Target, plan: Plan, prot: seq<byte>, tbsLen: nat, kid: Option<Span>, input: Span,
                       scratch: Span, out: Span, sign: seq<byte> -> Signing) returns (ret: Status, outLen: nat)
    requires BeforeSigning(c, false).Success? && Ready(c, t, plan, prot) && c.sigLen.Predicted?
    requires scratch.Valid() && input.Valid() && out.Valid() && OptValid(kid)
    requires input.Bytes() == c.message && out.len == c.outSz && OptBytes(kid) == c.kid
    requires !scratch.Overlaps(input) && !scratch.Overlaps(out) && !OptOverlaps(scratch, kid)
    requires tbsLen + c.sigLen.n <= scratch.len && scratch.Bytes()[..tbsLen] == Tbs(c)
    modifies scratch.mem, out.mem
    ensures Outcome(c, sign, ret, outLen, true, old(out.Bytes()), out.Bytes())
    ensures ret.Fail? || (!input.SameStart(out) && !input.Overlaps(out)) ==> input.Bytes() == old(input.Bytes())
  {
    hide OnlyWithin, Span.Overlaps, Added, Tbs, BeforeSigning, Ready, Fits, Outcome, OptOverlaps;
    outLen := 0;
    ghost var was := out.Bytes();
    ghost var a, inWas, outWas := scratch.mem[..], input.mem[..], out.mem[..];
    ghost var kidWas := KidArray(kid);
    ghost var r := sign(Tbs(c));
    var sig;
    ret, sig := CounterSignTbs(scratch, tbsLen, c.sigLen.n, sign);
    KeptAll(c, scratch, input, out, kid, a, inWas, outWas, kidWas);
    if ret.Success? {
      ret, outLen := AttachSigned(c, t, plan, input, prot, kid, sig, out);
    }
    OutcomeIs(c, sign, ret, outLen, r, was, out.Bytes());
  }

  /** How a call that was refused before the signer ends. */
  lemma OutcomeRefused(c: Call, sign: seq<byte> -> Signing, ret: Status, was: seq<byte>)
    requires ret.Fail? && ret == BeforeSigning(c, false)
    ensures Outcome(c, sign, ret, 0, false, was, was)
  {
    hide BeforeSigning, Added, Tbs;
  }

  /** How a call that reached the signer ends. */
  lemma OutcomeIs(c: Call, sign: seq<byte> -> Signing, ret: Status, outLen: nat, r: Signing, was: seq<byte>,
                  now: seq<byte>)
    requires BeforeSigning(c, false).Success? && r == sign(Tbs(c)) && c.sigLen.Predicted?
    requires ret == match r
                    case NotSigned(e) => Fail(e)
                    case Signed(sig) => if |sig| != c.sigLen.n then Fail(Crypto) else Success
    requires ret.Fail? ==> outLen == 0 && now == was
    requires ret.Success? ==>
      && outLen == |Added(c, r.sig)| <= |now| && now[..outLen] == Added(c, r.sig)
      && |now| == |was| && now[outLen..] == was[outLen..]
    ensures Outcome(c, sign, ret, outLen, true, was, now)
  {
    hide BeforeSigning, Added, Tbs;
  }

  /** A buffer that scratch does not overlap is as it was. */
  lemma Kept(scratch: Span, other: Span, scratchWas: seq<byte>, otherWas: seq<byte>)
    requires scratch.Valid() && other.Valid() && !scratch.Overlaps(other)
    requires OnlyWithin(scratchWas, scratch.mem[..], scratch.off, scratch.len)
    requires |scratchWas| == scratch.mem.Length && |otherWas| == other.mem.Length
    requires if other.mem == scratch.mem then otherWas == scratchWas else otherWas == other.mem[..]
    ensures other.Bytes() == otherWas[other.off..other.off + other.len]
  {
    hide OnlyWithin, Span.Overlaps;
    Untouched(scratch, other, (scratchWas, otherWas), (scratch.mem[..], other.mem[..]));
    assert other.Bytes() == other.mem[..][other.off..other.off + other.len];
  }

  /** The array of the key identifier. */
  ghost function KidArray(kid: Option<Span>): (a: seq<byte>)
    reads if kid.Some? then {kid.value.mem} else {}
  {
    match kid { case None => [] case Some(k) => k.mem[..] }
  }

  /** The message, the output buffer and the key identifier are as they were. */
  lemma KeptAll(c: Call, scratch: Span, input: Span, out: Span, kid: Option<Span>, a: seq<byte>, inWas: seq<byte>,
                outWas: seq<byte>, kidWas: seq<byte>)
    requires scratch.Valid() && input.Valid() && out.Valid() && OptValid(kid)
    requires !scratch.Overlaps(input) && !scratch.Overlaps(out) && !OptOverlaps(scratch, kid)
    requires OnlyWithin(a, scratch.mem[..], scratch.off, scratch.len)
    requires |a| == scratch.mem.Length && |inWas| == input.mem.Length && |outWas| == out.mem.Length
    requires if input.mem == scratch.mem then inWas == a else inWas == input.mem[..]
    requires if out.mem == scratch.mem then outWas == a else outWas == out.mem[..]
    requires kid.Some? ==> |kidWas| == kid.value.mem.Length
    requires kid.Some? && kid.value.mem == scratch.mem ==> kidWas == a
    requires kid.Some? && kid.value.mem != scratch.mem ==> kidWas == kid.value.mem[..]
    requires inWas[input.off..input.off + input.len] == c.message
    requires match kid case None => c.kid.None? case Some(k) => c.kid == Some(kidWas[k.off..k.off + k.len])
    ensures input.Bytes() == c.message && OptBytes(kid) == c.kid
    ensures out.Bytes() == outWas[out.off..out.off + out.len]
  {
    hide OnlyWithin, Span.Overlaps;
    Kept(scratch, input, a, inWas);
    Kept(scratch, out, a, outWas);
    if kid.Some? {
      Kept(scratch, kid.value, a, kidWas);
    }
  }

  /** Attaching the signature that was made; nothing can fail here. */
  method AttachSigned(c: Call, t: Target, plan: Plan, input: Span, prot: seq<byte>, kid: Option<Span>, sig: seq<byte>,
                      out: Span) returns (ret: Status, outLen: nat)
    requires BeforeSigning(c, false).Success? && Ready(c, t, plan, prot) && c.sigLen.Predicted?
    requires input.Valid() && out.Valid() && OptValid(kid) && input.Bytes() == c.message && out.len == c.outSz
    requires OptBytes(kid) == c.kid && |sig| == c.sigLen.n
    modifies out.mem
    ensures ret == Success && outLen == |Added(c, sig)| <= out.len
    ensures out.Bytes()[..outLen] == Added(c, sig) && out.Bytes()[outLen..] == old(out.Bytes()[outLen..])
    ensures !input.SameStart(out) && !input.Overlaps(out) ==> input.Bytes() == old(input.Bytes())
  {
    hide OnlyWithin, Span.Overlaps, ParseTarget, PlanFor, Growable, Attached, CounterBytes, BeforeSigning, Ready, Added,
         Replaces, Span.SameStart;
    var kidData := match kid { case None => [] case Some(k) => k.Bytes() };
    ReadyToAttach(c, t, plan, prot, kidData, sig);
    ghost var a, inWas := out.mem[..], input.mem[..];
    ret, outLen := AttachCounter(t, plan, input, c.detached, prot, kidData, sig, c.abbreviated, out);
    AfterAttach(input, out, a, inWas, outLen);
  }

  /** What attaching leaves alone: the rest of the output buffer, and an input elsewhere. */
  lemma AfterAttach(input: Span, out: Span, outWas: seq<byte>, inWas: seq<byte>, n: nat)
    requires input.Valid() && out.Valid() && n <= out.len
    requires |outWas| == out.mem.Length && |inWas| == input.mem.Length
    requires OnlyWithin(outWas, out.mem[..], out.off, n)
    requires if input.mem == out.mem then inWas == outWas else inWas == input.mem[..]
    ensures out.Bytes()[n..] == outWas[out.off..out.off + out.len][n..]
    ensures !input.Overlaps(out) ==> input.Bytes() == inWas[input.off..input.off + input.len]
  {
    hide OnlyWithin, Span.Overlaps;
    assert out.Bytes() == out.mem[..][out.off..out.off + out.len];
    TailKept(outWas, out.mem[..], out.off, out.len, n);
    if !input.Overlaps(out) {
      WithinLarger(outWas, out.mem[..], out.off, n, out.off, out.len);
      OverlapsBoth(input, out);
      Kept(out, input, outWas, inWas);
    }
  }

  lemma OverlapsBoth(a: Span, b: Span)
    ensures a.Overlaps(b) <==> b.Overlaps(a)
  {
  }

  /** What the edit needs, and what it will write. */
  lemma ReadyToAttach(c: Call, t: Target, plan: Plan, prot: seq<byte>, kid: seq<byte>, sig: seq<byte>)
    requires BeforeSigning(c, false).Success? && Ready(c, t, plan, prot) && kid == BytesOf(c.kid)
    requires |sig| <= SIZE_MAX && c.sigLen.Predicted? && |sig| == c.sigLen.n
    ensures |prot| <= SIZE_MAX && |c.message| <= SIZE_MAX && t.mapStart <= t.mapContentStart <= t.mapEnd <= |c.message|
    ensures ParseTarget(c.message, c.detached).Ok? && ParseTarget(c.message, c.detached).value == t
    ensures Replaces(t, c.abbreviated) ==> Growable(c.message, t.full.value)
    ensures var counter := CounterBytes(c.abbreviated, prot, kid, sig);
      && PlanFor(plan, c.message, t, c.abbreviated, |counter|) && plan.finalLen <= c.outSz
      && Added(c, sig) == Attached(c.message, t, c.abbreviated, counter) && |Added(c, sig)| == plan.finalLen
  {
    hide BeforeSigning, ParseTarget, PlanFor, Growable, Attached, CounterBytes, CounterLen, SignStatus, Prot, Replaces,
         AttachedLen;
    CounterLenIs(c.abbreviated, prot, kid, sig);
    PlanLength(plan, c.message, t, c.abbreviated, CounterBytes(c.abbreviated, prot, kid, sig));
  }

  lemma PlanLength(plan: Plan, s: seq<byte>, t: Target, abbreviated: bool, counter: seq<byte>)
    requires t.mapStart <= t.mapContentStart <= t.mapEnd <= |s|
    requires Replaces(t, abbreviated) ==> Growable(s, t.full.value)
    requires PlanFor(plan, s, t, abbreviated, |counter|)
    ensures plan.finalLen == |Attached(s, t, abbreviated, counter)|
  {
    hide Attached, AttachedLen, Growable;
    AttachedLenIs(s, t, abbreviated, counter);
  }

  lemma TailKept(a: seq<byte>, b: seq<byte>, off: nat, len: nat, n: nat)
    requires n <= len && off + len <= |a| == |b| && OnlyWithin(a, b, off, n)
    ensures a[off..off + len][n..] == b[off..off + len][n..]
  {
    SubSlice(a, off, off + len, n, len);
    SubSlice(b, off, off + len, n, len);
    WithinSlice(a, b, off, n, off + n, len - n);
  }

  /** The order of the first refusals. */
  lemma BeforeIs(c: Call, aliased: bool)
    ensures c.kid == Some([]) ==> BeforeSigning(c, aliased) == Fail(InvalidArg)
    ensures c.kid != Some([]) && c.alg == ALG_HSS_LMS ==> BeforeSigning(c, aliased) == Fail(CoseBadAlg)
    ensures c.kid != Some([]) && c.alg != ALG_HSS_LMS && (!Fits(c) || aliased) ==>
      BeforeSigning(c, aliased) == Fail(InvalidArg)
    ensures c.kid != Some([]) && c.alg != ALG_HSS_LMS && Fits(c) && !aliased ==>
      BeforeSigning(c, aliased) == BeforeSigning(c, false)
  {
  }

  // ----- What was added verifies -----

  /** What planning promises about the message that is written. */
  lemma AddedFits(c: Call, sig: seq<byte>)
    requires BeforeSigning(c, false).Success? && |sig| <= SIZE_MAX && |sig| == c.sigLen.n
    ensures var t := TargetFor(c);
      && |c.message| <= SIZE_MAX && DetachedSized(c.detached) && |BytesOf(c.extAad)| <= SIZE_MAX
      && t.mapStart <= t.mapContentStart <= t.mapEnd <= |c.message|
      && (Replaces(t, c.abbreviated) ==> Growable(c.message, t.full.value))
      && (!Replaces(t, c.abbreviated) ==> t.mapCount < MAX_MAP_ITEMS)
      && |CounterBytes(c.abbreviated, Prot(c), BytesOf(c.kid), sig)| <= SIZE_MAX
      && Added(c, sig) == Attached(c.message, t, c.abbreviated, CounterBytes(c.abbreviated, Prot(c), BytesOf(c.kid), sig))
      && |Added(c, sig)| <= SIZE_MAX
      && (c.abbreviated ==> t.abbreviated.None?) && (!c.abbreviated ==> t.legacyFull.None?)
  {
    hide ParseTarget, Growable, Attached, CounterBytes, AttachedLen, CounterLen, CounterStructure, CounterListInfo;
    var t, counter := TargetFor(c), CounterBytes(c.abbreviated, Prot(c), BytesOf(c.kid), sig);
    PlannedGrows(c.message, t, c.abbreviated, CounterLen(c.abbreviated, |Prot(c)|, LenOf(c.kid), c.sigLen.n), c.outSz);
    CounterLenIs(c.abbreviated, Prot(c), BytesOf(c.kid), sig);
    AttachedLenIs(c.message, t, c.abbreviated, counter);
  }

  /** A full countersignature that was added: at every earlier index the message verifies as
      before, and at the new one exactly as the new signature does over the bytes that were
      signed, as long as the earlier value left room for one more level of nesting. */
  lemma AddedFullVerifies(c: Call, sig: seq<byte>, scratchSz: nat, keyAlg: i64, verify: Verifier)
    requires BeforeSigning(c, false).Success? && |sig| <= SIZE_MAX && |sig| == c.sigLen.n
    requires !c.abbreviated && InInt32(c.alg)
    requires RoomForFull(c.message, TargetFor(c)) ==> NestsDeeper(c.message, TargetFor(c))
    ensures var u, n := Added(c, sig), |FullCounters(c.message, TargetFor(c))|;
      && |u| <= SIZE_MAX && |c.message| <= SIZE_MAX && DetachedSized(c.detached) && |BytesOf(c.extAad)| <= SIZE_MAX
      && (forall k :: 0 <= k < n ==>
            VerifyFull(u, c.detached, k, BytesOf(c.extAad), scratchSz, keyAlg, verify)
            == VerifyFull(c.message, c.detached, k, BytesOf(c.extAad), scratchSz, keyAlg, verify))
      && VerifyFull(u, c.detached, n, BytesOf(c.extAad), scratchSz, keyAlg, verify)
         == (if |Tbs(c)| > scratchSz then Fail(BufferTooSmall) else verify(c.alg, Tbs(c), sig))
  {
    hide BeforeSigning, ParseTarget, Growable, WithGrownValue, WithEntry, FullCounterBytes, CounterStructure, VerifyFull,
         FullCounters, NestsDeeper, TargetFor, AlgHeader;
    AddedFits(c, sig);
    VerifyAfterFullAttach(c.message, c.detached, c.alg, BytesOf(c.kid), sig, BytesOf(c.extAad), scratchSz, keyAlg, verify);
  }

  /** An abbreviated countersignature that was added verifies exactly as its signature does
      over the bytes that were signed, and every full one verifies as before. */
  lemma AddedAbbreviatedVerifies(c: Call, sig: seq<byte>, index: nat, scratchSz: nat, alg: i64, verify: Verifier)
    requires BeforeSigning(c, false).Success? && |sig| <= SIZE_MAX && |sig| == c.sigLen.n && c.abbreviated
    ensures var u := Added(c, sig);
      && |u| <= SIZE_MAX && |c.message| <= SIZE_MAX && DetachedSized(c.detached) && |BytesOf(c.extAad)| <= SIZE_MAX
      && VerifyAbbreviated(u, c.detached, BytesOf(c.extAad), scratchSz, alg, verify)
         == (if |Tbs(c)| > scratchSz then Fail(BufferTooSmall) else verify(alg, Tbs(c), sig))
      && VerifyFull(u, c.detached, index, BytesOf(c.extAad), scratchSz, alg, verify)
         == VerifyFull(c.message, c.detached, index, BytesOf(c.extAad), scratchSz, alg, verify)
  {
    hide BeforeSigning, ParseTarget, Growable, WithGrownValue, WithEntry, FullCounterBytes, CounterStructure, VerifyFull,
         VerifyAbbreviated, FullCounters, TargetFor, EncodeBstr;
    AddedFits(c, sig);
    VerifyAfterAbbreviatedAttach(c.message, c.detached, sig, index, BytesOf(c.extAad), scratchSz, alg, verify);
  }
}
