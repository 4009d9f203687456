/**
 Multi-signer COSE_Sign messages (section 4.1 of RFC 9052) with HSS/LMS signers, whose
 one-time signatures must not be spent on a call that then fails.  What wolfCrypt or a
 delegated signer does is a parameter of every signer.
 */
module MultiSign {
  import opened Wire
  import opened Utf8
  import opened Memory
  import opened Cbor
  import opened CborRoundTrip
  import opened CborEncoder
  import opened Sizes
  import opened Header
  import opened Countersign
  import opened CountersignPlan
  import opened CountersignBuild
  import opened CountersignAdd
  import opened Structures

  const ALG_ML_DSA_44: i64 := -48
  const ALG_ML_DSA_65: i64 := -49
  const ALG_ML_DSA_87: i64 := -50

  /** A signer: its algorithm and key identifier, whether a callback signs for it, what its
      key promises, and what using the key does.
       * `canSign`, `keyCheck`: the checks of the key and the algorithm against it;
       * `preHash`: whether a delegated signer hashes first, or the refusal of the algorithm;
       * `ready`: whether a local one-time key can sign right now;
       * `hashAlg`: the hash a local signer needs;
       * `prepare`: what else is checked and hashed before the key is used;
       * `sign`: the use of the key, which spends a one-time signature of an HSS/LMS key. */
  datatype Signer = Signer(alg: i64, kid: Option<Bytes>, delegated: bool, sigLen: SigLen, canSign: bool,
                           keyCheck: Status, preHash: Dec<bool>, ready: Status, hashAlg: Status, prepare: Status,
                           sign: seq<byte> -> Signing)

  predicate IsLms(s: Signer) {
    s.alg == ALG_HSS_LMS
  }

  predicate IsMlDsa(alg: i64) {
    alg == ALG_ML_DSA_44 || alg == ALG_ML_DSA_65 || alg == ALG_ML_DSA_87
  }

  /** The bytes a signer signs. */
  function SignerTbs(s: Signer, extAad: Field, payload: Field): (b: seq<byte>) {
    ToBeSignedMaced(CONTEXT_SIGN, [], Some(AlgHeader(s.alg)), extAad, payload)
  }

  // ----- The message -----

  function SignerKid(s: Signer): (b: Bytes) {
    match s.kid { case None => [] case Some(k) => k }
  }

  /** One COSE_Signature. */
  function SignatureBytes(s: Signer, sig: Bytes): (b: seq<byte>) {
    FullCounterBytes(AlgHeader(s.alg), SignerKid(s), sig)
  }

  function SignaturesBytes(ss: seq<Signer>, sigs: seq<Bytes>): (b: seq<byte>)
    requires |ss| == |sigs|
  {
    if ss == [] then []
    else SignaturesBytes(ss[..|ss| - 1], sigs[..|sigs| - 1]) + SignatureBytes(ss[|ss| - 1], sigs[|sigs| - 1])
  }

  /** What stands before the signatures: tag, array head, empty buckets, payload, array head. */
  function SignFront(embedded: Option<Bytes>, n: u64): (b: seq<byte>) {
    EncodeHead(TAG, TAG_SIGN) + EncodeHead(ARRAY, 4) + EncodeBstr([]) + EncodeHead(MAP, 0)
    + (match embedded { case None => [NULL_BYTE] case Some(p) => EncodeBstr(p) }) + EncodeHead(ARRAY, n)
  }

  function SignMessage(embedded: Option<Bytes>, ss: seq<Signer>, sigs: seq<Bytes>): (b: seq<byte>)
    requires |ss| == |sigs| < U64_BOUND
  {
    SignFront(embedded, |ss|) + SignaturesBytes(ss, sigs)
  }

  lemma SignaturesNext(ss: seq<Signer>, sigs: seq<Bytes>, i: nat)
    requires |ss| == |sigs| && i < |ss|
    ensures SignaturesBytes(ss[..i + 1], sigs[..i + 1])
         == SignaturesBytes(ss[..i], sigs[..i]) + SignatureBytes(ss[i], sigs[i])
  {
    assert ss[..i + 1][..i] == ss[..i] && sigs[..i + 1][..i] == sigs[..i];
  }

  // ----- Its size -----

  /** The size of one COSE_Signature with the predicted signature length. */
  function SignatureSize(s: Signer): (n: nat)
    requires s.sigLen.Predicted?
  {
    CounterLen(false, |AlgHeader(s.alg)|, |SignerKid(s)|, s.sigLen.n)
  }

  function SignaturesSize(ss: seq<Signer>): (n: nat)
    requires forall i :: 0 <= i < |ss| ==> ss[i].sigLen.Predicted?
  {
    if ss == [] then 0 else SignaturesSize(ss[..|ss| - 1]) + SignatureSize(ss[|ss| - 1])
  }

  function FrontSize(embedded: Option<Bytes>, n: u64): (k: nat) {
    5 + (match embedded { case None => 1 case Some(p) => StringSize(|p|) }) + HeadSize(n)
  }

  /** The predicted size of the message. */
  function SignSize(embedded: Option<Bytes>, ss: seq<Signer>): (n: nat)
    requires |ss| < U64_BOUND && forall i :: 0 <= i < |ss| ==> ss[i].sigLen.Predicted?
  {
    FrontSize(embedded, |ss|) + SignaturesSize(ss)
  }

  lemma FrontSizeIs(embedded: Option<Bytes>, n: u64)
    ensures |SignFront(embedded, n)| == FrontSize(embedded, n)
  {
    hide HeadBytes;
  }

  /** A signature no longer than predicted takes no more room than predicted, and one of
      exactly that length takes exactly that room. */
  lemma SignatureFits(s: Signer, sig: Bytes)
    requires s.sigLen.Predicted? && |sig| <= s.sigLen.n
    ensures |SignatureBytes(s, sig)| <= SignatureSize(s)
    ensures |sig| == s.sigLen.n ==> |SignatureBytes(s, sig)| == SignatureSize(s)
  {
    CounterLenIs(false, AlgHeader(s.alg), SignerKid(s), sig);
    StringSizeGrows(|sig|, s.sigLen.n);
    hide FullCounterBytes, StringSize, AlgHeader;
  }

  lemma StringSizeGrows(a: nat, b: nat)
    requires a <= b < U64_BOUND
    ensures StringSize(a) <= StringSize(b)
  {
  }

  /** The signatures made so far leave room for all the others that are predicted. */
  lemma {:induction false} SignaturesFit(ss: seq<Signer>, sigs: seq<Bytes>)
    requires |ss| == |sigs| && forall i :: 0 <= i < |ss| ==> ss[i].sigLen.Predicted? && |sigs[i]| <= ss[i].sigLen.n
    ensures |SignaturesBytes(ss, sigs)| <= SignaturesSize(ss)
    ensures (forall i :: 0 <= i < |ss| ==> |sigs[i]| == ss[i].sigLen.n) ==>
      |SignaturesBytes(ss, sigs)| == SignaturesSize(ss)
  {
    hide SignatureBytes, SignatureSize;
    if ss != [] {
      var n := |ss| - 1;
      SignaturesFit(ss[..n], sigs[..n]);
      SignatureFits(ss[n], sigs[n]);
    }
  }

  lemma {:induction false} SizesGrow(ss: seq<Signer>, i: nat)
    requires i <= |ss| && forall k :: 0 <= k < |ss| ==> ss[k].sigLen.Predicted?
    ensures SignaturesSize(ss[..i]) <= SignaturesSize(ss)
    decreases |ss| - i
  {
    hide SignatureSize;
    if i < |ss| {
      SizesGrow(ss, i + 1);
      assert ss[..i + 1][..i] == ss[..i];
    } else {
      assert ss[..i] == ss;
    }
  }

  /** When every signature has its predicted length, the message has the predicted size. */
  lemma SizeIsExact(embedded: Option<Bytes>, ss: seq<Signer>, sigs: seq<Bytes>)
    requires |ss| == |sigs| < U64_BOUND
    requires forall i :: 0 <= i < |ss| ==> ss[i].sigLen.Predicted? && |sigs[i]| == ss[i].sigLen.n
    ensures |SignMessage(embedded, ss, sigs)| == SignSize(embedded, ss)
  {
    hide SignaturesBytes, SignFront, SignaturesSize;
    FrontSizeIs(embedded, |ss|);
    SignaturesFit(ss, sigs);
  }

  predicate AllPredicted(ss: seq<Signer>) {
    forall i :: 0 <= i < |ss| ==> ss[i].sigLen.Predicted?
  }

  /** Why sizing a list of signers fails: a key refuses, or the sum does not fit. */
  ghost predicate SizeRefused(embedded: Option<Bytes>, ss: seq<Signer>, e: Error)
    requires |ss| < U64_BOUND
  {
    || (exists i :: 0 <= i < |ss| && ss[i].sigLen == Refused(e))
    || (e == InvalidArg && (AllPredicted(ss) ==> SignSize(embedded, ss) > SIZE_MAX))
  }

  /** The room one COSE_Signature takes, added to a total. */
  method AddSignatureSize(s: Signer, total: nat, ghost embedded: Option<Bytes>) returns (ret: Status, sum: nat)
    requires total <= SIZE_MAX
    ensures ret.Success? ==> s.sigLen.Predicted? && sum == total + SignatureSize(s) <= SIZE_MAX
    ensures ret.Fail? ==> ret.error == InvalidArg || s.sigLen == Refused(ret.error)
    ensures ret.Fail? && s.sigLen.Predicted? ==> total + SignatureSize(s) > SIZE_MAX && ret.error == InvalidArg
  {
    hide StringSize, AlgHeader;
    sum := total;
    var protectedLen := |AlgHeader(s.alg)|;
    if s.sigLen.Refused? {
      return Fail(s.sigLen.error), sum;
    }
    var itemLen;
    ret, sum := SizeAdd(sum, 1);
    if ret.Success? {
      ret, itemLen := CborStringSize(protectedLen);
      if ret.Success? {
        ret, sum := SizeAdd(sum, itemLen);
      }
    }
    if ret.Success? {
      ret, sum := SizeAdd(sum, 1);
    }
    if ret.Success? && |SignerKid(s)| > 0 {
      ret, sum := SizeAdd(sum, 1);
      if ret.Success? {
        ret, itemLen := CborStringSize(|SignerKid(s)|);
      }
      if ret.Success? {
        ret, sum := SizeAdd(sum, itemLen);
      }
    }
    if ret.Success? {
      ret, itemLen := CborStringSize(s.sigLen.n);
      if ret.Success? {
        ret, sum := SizeAdd(sum, itemLen);
      }
    }
  }

  /** `wolfCose_SignEncodedSize`. */
  method SignEncodedSize(ss: seq<Signer>, embedded: Option<Bytes>) returns (ret: Status, outLen: nat)
    requires |ss| <= SIZE_MAX / 8
    ensures ret.Success? ==> AllPredicted(ss) && outLen == SignSize(embedded, ss) <= SIZE_MAX
    ensures ret.Fail? ==> SizeRefused(embedded, ss, ret.error)
  {
    hide StringSize, SignatureSize, HeadSize;
    outLen := 0;
    var total, itemLen;
    ret, total := SizeAdd(0, 5);
    if ret.Success? {
      if embedded.None? {
        ret, total := SizeAdd(total, 1);
      } else {
        ret, itemLen := CborStringSize(|embedded.value|);
        if ret.Success? {
          ret, total := SizeAdd(total, itemLen);
        }
      }
    }
    if ret.Success? {
      ret, itemLen := CborStringSize(|ss|);
      SignerCountFits(|ss|);
      if ret.Success? {
        ret, total := SizeAdd(total, itemLen - |ss|);
      }
    }
    if ret.Fail? {
      return;
    }
    var i := 0;
    while ret.Success? && i < |ss|
      invariant 0 <= i <= |ss|
      invariant ret.Success? ==> total <= SIZE_MAX && AllPredicted(ss[..i])
      invariant ret.Success? ==> total == FrontSize(embedded, |ss|) + SignaturesSize(ss[..i])
      invariant ret.Fail? ==> SizeRefused(embedded, ss, ret.error)
      decreases ret.Success?, |ss| - i
    {
      assert ss[..i + 1][..i] == ss[..i];
      ghost var before := total;
      ret, total := AddSignatureSize(ss[i], total, embedded);
      if ret.Fail? && AllPredicted(ss) {
        SizesGrow(ss, i + 1);
      }
      i := i + 1;
    }
    assert ss[..|ss|] == ss;
    if ret.Success? {
      outLen := total;
    }
  }

  lemma SignerCountFits(n: nat)
    requires n <= SIZE_MAX / 8
    ensures StringSize(n) == HeadSize(n) + n <= SIZE_MAX
  {
  }

  // ----- Checks before anything is signed -----

  /** How many signers are HSS/LMS. */
  function LmsCount(ss: seq<Signer>): (n: nat) {
    if ss == [] then 0 else LmsCount(ss[..|ss| - 1]) + (if IsLms(ss[|ss| - 1]) then 1 else 0)
  }

  /** There is no HSS/LMS signer, or only the last one is. */
  predicate LmsOnlyLast(ss: seq<Signer>) {
    forall i :: 0 <= i < |ss| - 1 ==> !IsLms(ss[i])
  }

  lemma {:induction false} LmsCountLast(ss: seq<Signer>)
    ensures LmsCount(ss) == 0 <==> forall i :: 0 <= i < |ss| ==> !IsLms(ss[i])
  {
    if ss != [] {
      LmsCountLast(ss[..|ss| - 1]);
    }
  }

  /** The rule of the library says exactly that an HSS/LMS signer comes last and is the only one. */
  lemma LmsRule(ss: seq<Signer>)
    requires ss != []
    ensures LmsCount(ss) > 1 || (LmsCount(ss) == 1 && !IsLms(ss[|ss| - 1])) <==> !LmsOnlyLast(ss)
    ensures LmsOnlyLast(ss) ==> (LmsCount(ss) != 0 <==> IsLms(ss[|ss| - 1]))
  {
    var front := ss[..|ss| - 1];
    LmsCountLast(front);
    assert forall i :: 0 <= i < |front| ==> front[i] == ss[i];
  }

  /** Whether the signature is made behind the structure in the scratch buffer. */
  function InPlace(s: Signer): (b: bool) {
    if s.delegated then s.preHash.Ok? && !s.preHash.value else IsMlDsa(s.alg) || IsLms(s)
  }

  /** The scratch buffer holds what signer `s` needs. */
  predicate ScratchFits(s: Signer, extAad: Field, payload: Field, scratchSz: nat) {
    && s.sigLen.Predicted?
    && |SignerTbs(s, extAad, payload)| <= scratchSz
    && (if InPlace(s) then |SignerTbs(s, extAad, payload)| + s.sigLen.n <= scratchSz else s.sigLen.n <= scratchSz)
  }

  /** The scratch buffer holds what the signer needs, and its key is ready. */
  predicate Checked(s: Signer, extAad: Field, payload: Field, scratchSz: nat) {
    && ScratchFits(s, extAad, payload, scratchSz)
    && (s.delegated ==> s.preHash.Ok?) && (IsLms(s) && !s.delegated ==> s.ready.Success?)
  }

  /** What the checks before signing establish when an HSS/LMS signer is present. */
  predicate Prepared(embedded: Option<Bytes>, ss: seq<Signer>, extAad: Field, payload: Field, scratchSz: nat, outSz: nat) {
    && LmsOnlyLast(ss) && AllPredicted(ss) && |ss| < U64_BOUND && SignSize(embedded, ss) <= outSz
    && (forall i :: 0 <= i < |ss| ==> Checked(ss[i], extAad, payload, scratchSz))
  }

  /** The scratch layout of one signer: its structure is built once for its size. */
  method CheckScratch(s: Signer, extAad: Field, payload: Field, scratch: array<byte>) returns (ret: Status)
    requires InInt32(s.alg) && scratch.Length <= SIZE_MAX
    modifies scratch
    ensures ret.Success? <==> Checked(s, extAad, payload, scratch.Length)
  {
    hide AlgHeader, ToBeSignedMaced, Patch, OnlyWithin, IsUtf8;
    var protectedBuf := new byte[PROTECTED_HDR_MAX];
    var protectedLen, sigStructLen;
    var inPlace := IsMlDsa(s.alg) || s.alg == ALG_HSS_LMS;
    ret, protectedLen := EncodeProtectedHdr(s.alg, protectedBuf);
    SignContextIsText();
    ret, sigStructLen := BuildToBeSignedMaced(CONTEXT_SIGN, [], Some(protectedBuf[..protectedLen]), extAad, payload, scratch, 0,
                                              scratch.Length);
    if ret.Success? && s.sigLen.Refused? {
      ret := Fail(s.sigLen.error);
    }
    if ret.Success? && !s.delegated && s.alg == ALG_HSS_LMS && s.ready.Fail? {
      ret := s.ready;
    }
    if ret.Success? && s.delegated {
      ret := s.preHash.Status();
      inPlace := s.preHash.Ok? && !s.preHash.value;
    }
    var need := sigStructLen;
    if ret.Success? {
      if inPlace {
        ret, need := SizeAdd(need, s.sigLen.n);
      } else if s.sigLen.n > need {
        need := s.sigLen.n;
      }
    }
    if ret.Success? && need > scratch.Length {
      ret := Fail(BufferTooSmall);
    }
  }

  lemma SignContextIsText()
    ensures IsUtf8(CONTEXT_SIGN) && |CONTEXT_SIGN| <= 10
  {
    MessageContexts(CONTEXT_SIGN);
  }

  /** Everything that is checked before the first signer when an HSS/LMS signer is present. */
  method Preflight(ss: seq<Signer>, embedded: Option<Bytes>, extAad: Field, payload: Field, scratch: array<byte>,
                   outSz: nat) returns (ret: Status)
    requires outSz <= SIZE_MAX
    requires 0 < |ss| <= SIZE_MAX / 8 && scratch.Length <= SIZE_MAX && forall i :: 0 <= i < |ss| ==> InInt32(ss[i].alg)
    modifies scratch
    ensures ret.Success? <==>
      LmsOnlyLast(ss) && (IsLms(ss[|ss| - 1]) ==> Prepared(embedded, ss, extAad, payload, scratch.Length, outSz))
  {
    hide Checked, SignSize, AlgHeader;
    var haveLms, i := 0, 0;
    while i < |ss|
      invariant 0 <= i <= |ss| && haveLms == LmsCount(ss[..i])
    {
      assert ss[..i + 1][..i] == ss[..i];
      if ss[i].alg == ALG_HSS_LMS {
        haveLms := haveLms + 1;
      }
      i := i + 1;
    }
    assert ss[..|ss|] == ss;
    LmsRule(ss);
    ret := Success;
    if haveLms > 1 || (haveLms == 1 && ss[|ss| - 1].alg != ALG_HSS_LMS) {
      return Fail(InvalidArg);
    }
    if haveLms != 0 {
      var neededOut;
      ret, neededOut := SignEncodedSize(ss, embedded);
      if ret.Success? && outSz < neededOut {
        ret := Fail(BufferTooSmall);
      }
      assert ret.Success? <==> AllPredicted(ss) && SignSize(embedded, ss) <= outSz;
    }
    i := 0;
    while ret.Success? && haveLms != 0 && i < |ss|
      invariant 0 <= i <= |ss|
      invariant haveLms == 0 ==> ret.Success?
      invariant ret.Success? && haveLms != 0 ==>
        && AllPredicted(ss) && SignSize(embedded, ss) <= outSz
        && forall k :: 0 <= k < i ==> Checked(ss[k], extAad, payload, scratch.Length)
      invariant ret.Fail? ==> !Prepared(embedded, ss, extAad, payload, scratch.Length, outSz)
      decreases ret.Success?, |ss| - i
    {
      ret := CheckScratch(ss[i], extAad, payload, scratch);
      i := i + 1;
    }
  }

  // ----- Signing -----

  /** What using the key of a signer yields. */
  function Made(s: Signer, extAad: Field, payload: Field): (r: Signing) {
    s.sign(SignerTbs(s, extAad, payload))
  }

  /** The signer itself fails: its key does not sign, or a callback returns another length
      than its key promised. */
  predicate OwnFailure(s: Signer, r: Signing) {
    || r.NotSigned?
    || (s.delegated && s.sigLen.Predicted? && (|r.sig| == 0 || |r.sig| != s.sigLen.n))
  }

  /** Whether a signer's key can be used on a structure of this size. */
  predicate Usable(s: Signer, sigStructLen: nat, scratchSz: nat) {
    && s.prepare.Success?
    && (s.delegated ==>
          && s.preHash.Ok? && s.sigLen.Predicted?
          && var sigOff := if s.preHash.value then 0 else sigStructLen;
             sigOff < scratchSz && sigOff + s.sigLen.n <= scratchSz)
    && (!s.delegated && IsMlDsa(s.alg) ==> s.sigLen.Predicted? && sigStructLen + s.sigLen.n <= scratchSz)
    && (!s.delegated && IsLms(s) ==>
          s.sigLen.Predicted? && sigStructLen <= INT32_MAX && sigStructLen + s.sigLen.n <= scratchSz)
  }

  /** Whether a signer signs: its structure fits, its key can be used, and yields a signature that
      a delegated signer's key promised. */
  predicate Works(s: Signer, extAad: Field, payload: Field, scratchSz: nat) {
    && (!s.delegated && !IsMlDsa(s.alg) && !IsLms(s) ==> s.hashAlg.Success?)
    && |SignerTbs(s, extAad, payload)| <= scratchSz && Usable(s, |SignerTbs(s, extAad, payload)|, scratchSz)
    && Made(s, extAad, payload).Signed? && !OwnFailure(s, Made(s, extAad, payload))
  }

  /** The checks of one signer between its structure and the use of its key. */
  method BeforeUse(s: Signer, sigStructLen: nat, scratchSz: nat) returns (ret: Status)
    requires sigStructLen <= scratchSz <= SIZE_MAX
    ensures ret.Success? <==> Usable(s, sigStructLen, scratchSz)
  {
    ret := Success;
    if s.delegated {
      var sigOff := 0;
      ret := s.preHash.Status();
      if ret.Success? {
        sigOff := if s.preHash.value then 0 else sigStructLen;
        if scratchSz <= sigOff {
          ret := Fail(BufferTooSmall);
        }
      }
      if ret.Success? {
        ret := s.prepare;
      }
      if ret.Success? && s.sigLen.Refused? {
        ret := Fail(s.sigLen.error);
      }
      if ret.Success? && scratchSz - sigOff < s.sigLen.n {
        ret := Fail(BufferTooSmall);
      }
    } else if IsMlDsa(s.alg) {
      ret := s.prepare;
      if ret.Success? && s.sigLen.Refused? {
        ret := Fail(s.sigLen.error);
      }
      if ret.Success? && sigStructLen + s.sigLen.n > scratchSz {
        ret := Fail(BufferTooSmall);
      }
    } else if s.alg == ALG_HSS_LMS {
      ret := s.prepare;
      if ret.Success? && s.sigLen.Refused? {
        ret := Fail(CoseKeyType);
      }
      if ret.Success? && sigStructLen > INT32_MAX {
        ret := Fail(InvalidArg);
      }
      if ret.Success? && (s.sigLen.n > scratchSz || sigStructLen > scratchSz - s.sigLen.n) {
        ret := Fail(BufferTooSmall);
      }
    } else {
      ret := s.prepare;
    }
  }

  lemma UsableLength(s: Signer, sigStructLen: nat, scratchSz: nat)
    ensures Usable(s, sigStructLen, scratchSz) && s.delegated ==> s.sigLen.Predicted?
  {
  }

  /** One signer: its structure, its checks, the use of its key.  `used` tells whether the
      key was used, which for HSS/LMS spends a one-time signature. */
  method SignOne(s: Signer, extAad: Field, payload: Field, scratch: array<byte>)
    returns (ret: Status, prot: seq<byte>, sig: Bytes, ghost used: bool)
    requires InInt32(s.alg) && scratch.Length <= SIZE_MAX
    modifies scratch
    ensures ret.Success? <==> Works(s, extAad, payload, scratch.Length)
    ensures ret.Success? ==>
      && used && Made(s, extAad, payload).Signed? && sig == Made(s, extAad, payload).sig && prot == AlgHeader(s.alg)
      && (s.delegated ==> s.sigLen.Predicted? && |sig| == s.sigLen.n)
    ensures ret.Fail? && used ==> OwnFailure(s, Made(s, extAad, payload))
  {
    hide AlgHeader, ToBeSignedMaced, Patch, OnlyWithin, IsUtf8, Usable;
    sig, prot, used := [], [], false;
    UsableLength(s, |SignerTbs(s, extAad, payload)|, scratch.Length);
    ret := Success;
    if !s.delegated && !IsMlDsa(s.alg) && s.alg != ALG_HSS_LMS {
      ret := s.hashAlg;
    }
    var protectedBuf := new byte[PROTECTED_HDR_MAX];
    var protectedLen, sigStructLen := 0, 0;
    if ret.Success? {
      ret, protectedLen := EncodeProtectedHdr(s.alg, protectedBuf);
    }
    if ret.Success? {
      prot := protectedBuf[..protectedLen];
      SignContextIsText();
      ret, sigStructLen := BuildToBeSignedMaced(CONTEXT_SIGN, [], Some(prot), extAad, payload, scratch, 0, scratch.Length);
    }
    if ret.Success? {
      PatchPrefix(old(scratch[..]), SignerTbs(s, extAad, payload));
      ret := BeforeUse(s, sigStructLen, scratch.Length);
    }
    if ret.Success? {
      assert scratch[..sigStructLen] == scratch[..][..sigStructLen];
      used := true;
      var r := s.sign(scratch[..sigStructLen]);
      match r
      case NotSigned(e) =>
        ret := Fail(Crypto);
      case Signed(b) =>
        sig := b;
        if s.delegated && (|b| == 0 || |b| != s.sigLen.n) {
          ret := Fail(Crypto);
        }
    }
  }

  /** The front of the message. */
  method EncodeFront(ctx: Encoder, embedded: Option<Bytes>, n: u64) returns (ret: Status)
    requires ctx.Valid() && ctx.idx == 0 && ctx.written == []
    modifies ctx`idx, ctx`written, ctx.buf
    ensures ctx.Valid()
    ensures ret == if |SignFront(embedded, n)| <= ctx.bufSz then Success else Fail(BufferTooSmall)
    ensures ret.Success? ==> ctx.written == SignFront(embedded, n) && ctx.idx == |SignFront(embedded, n)|
  {
    hide EncodeHead, EncodeBstr, Encoder.Valid, HeadSize;
    Nothing(EncodeHead(TAG, TAG_SIGN));
    ret := ctx.EncodeTag(TAG_SIGN);
    if ret.Success? {
      ret := ctx.EncodeArrayStart(4);
    }
    if ret.Success? {
      ret := ctx.EncodeBstr([]);
    }
    if ret.Success? {
      ret := ctx.EncodeMapStart(0);
    }
    if ret.Success? {
      if embedded.None? {
        ret := ctx.EncodeNull();
      } else {
        ret := ctx.EncodeBstr(embedded.value);
      }
    }
    if ret.Success? {
      ret := ctx.EncodeArrayStart(n);
    }
  }

  /** The checks of the keys, in the order the library makes them. */
  method CheckSigners(ss: seq<Signer>) returns (ret: Status)
    ensures ret.Success? <==> forall i :: 0 <= i < |ss| ==>
      ss[i].canSign && ss[i].kid != Some([]) && ss[i].keyCheck.Success?
  {
    ret := Success;
    var i := 0;
    while ret.Success? && i < |ss|
      invariant 0 <= i <= |ss|
      invariant ret.Success? ==> forall k :: 0 <= k < i ==>
        ss[k].canSign && ss[k].kid != Some([]) && ss[k].keyCheck.Success?
      invariant ret.Fail? ==>
        exists k :: 0 <= k < |ss| && !(ss[k].canSign && ss[k].kid != Some([]) && ss[k].keyCheck.Success?)
      decreases ret.Success?, |ss| - i
    {
      if !ss[i].canSign {
        ret := Fail(CoseKeyType);
      } else if ss[i].kid.Some? && |ss[i].kid.value| == 0 {
        ret := Fail(InvalidArg);
      } else {
        ret := ss[i].keyCheck;
      }
      i := i + 1;
    }
  }

  /** No signer makes a signature longer than its key promised. */
  ghost predicate NoLonger(ss: seq<Signer>, extAad: Field, payload: Field) {
    forall i :: 0 <= i < |ss| && ss[i].sigLen.Predicted? && Made(ss[i], extAad, payload).Signed? ==>
      |Made(ss[i], extAad, payload).sig| <= ss[i].sigLen.n
  }

  /** The signatures are those that the keys of the first `|sigs|` signers made. */
  ghost predicate MadeAll(ss: seq<Signer>, sigs: seq<Bytes>, extAad: Field, payload: Field) {
    |sigs| <= |ss| && forall i :: 0 <= i < |sigs| ==> Made(ss[i], extAad, payload) == Signed(sigs[i])
  }

  /** With everything checked, the signatures made so far and the next one fit the output. */
  lemma NextFits(embedded: Option<Bytes>, ss: seq<Signer>, sigs: seq<Bytes>, extAad: Field, payload: Field,
                 scratchSz: nat, outSz: nat)
    requires Prepared(embedded, ss, extAad, payload, scratchSz, outSz) && NoLonger(ss, extAad, payload)
    requires 0 < |sigs| <= |ss| && MadeAll(ss, sigs, extAad, payload)
    ensures var i := |sigs| - 1;
      |SignFront(embedded, |ss|)| + |SignaturesBytes(ss[..i], sigs[..i])| + |SignatureBytes(ss[i], sigs[i])| <= outSz
  {
    hide SignaturesBytes, SignFront, SignaturesSize, SignatureBytes, SignatureSize, ScratchFits, SignerTbs;
    var i := |sigs| - 1;
    FrontSizeIs(embedded, |ss|);
    forall k | 0 <= k <= i
      ensures |sigs[k]| <= ss[k].sigLen.n
    {
      assert Made(ss[k], extAad, payload) == Signed(sigs[k]);
    }
    SignaturesFit(ss[..i], sigs[..i]);
    SignatureFits(ss[i], sigs[i]);
    SizesGrow(ss, i + 1);
    SizeNext(ss, i);
  }

  lemma SizeNext(ss: seq<Signer>, i: nat)
    requires i < |ss| && AllPredicted(ss)
    ensures SignaturesSize(ss[..i + 1]) == SignaturesSize(ss[..i]) + SignatureSize(ss[i])
  {
    hide SignatureSize;
    assert ss[..i + 1][..i] == ss[..i];
  }

  lemma WorksMade(s: Signer, extAad: Field, payload: Field, scratchSz: nat)
    ensures Works(s, extAad, payload, scratchSz) ==> Made(s, extAad, payload).Signed?
  {
    hide Usable, SignerTbs;
  }

  /** One signer's part of the message: signed, then written. */
  method SignNext(ss: seq<Signer>, i: nat, extAad: Field, payload: Field, ctx: Encoder, scratch: array<byte>,
                  ghost sigs: seq<Bytes>, ghost front: seq<byte>)
    returns (ret: Status, sig: Bytes, ghost used: bool)
    requires i < |ss| && i == |sigs| && InInt32(ss[i].alg) && scratch.Length <= SIZE_MAX && scratch != ctx.buf
    requires MadeAll(ss, sigs, extAad, payload)
    requires ctx.Valid() && ctx.from == 0 && ctx.written == front + SignaturesBytes(ss[..i], sigs)
    modifies ctx`idx, ctx`written, ctx.buf, scratch
    ensures ctx.Valid()
    ensures ret.Success? <==>
      && Works(ss[i], extAad, payload, scratch.Length)
      && |front| + |SignaturesBytes(ss[..i], sigs)| + |SignatureBytes(ss[i], Made(ss[i], extAad, payload).sig)| <= ctx.bufSz
    ensures ret.Success? ==>
      used && MadeAll(ss, sigs + [sig], extAad, payload)
      && ctx.written == front + SignaturesBytes(ss[..i + 1], sigs + [sig])
    ensures ret.Fail? && used ==>
      || OwnFailure(ss[i], Made(ss[i], extAad, payload))
      || (MadeAll(ss, sigs + [sig], extAad, payload)
          && |front| + |SignaturesBytes(ss[..i], sigs)| + |SignatureBytes(ss[i], sig)| > ctx.bufSz)
  {
    hide Encoder.Valid, SignaturesBytes, AlgHeader, FullCounterBytes, OwnFailure, Made, Works;
    WorksMade(ss[i], extAad, payload, scratch.Length);
    ghost var w := ctx.written;
    ctx.Done();
    var prot;
    ret, prot, sig, used := SignOne(ss[i], extAad, payload, scratch);
    if ret.Success? {
      ghost var sigs' := sigs + [sig];
      assert MadeAll(ss, sigs', extAad, payload);
      ret := EncodeFullCounter(ctx, prot, SignerKid(ss[i]), sig);
      assert sigs'[..i + 1] == sigs' && sigs'[..i] == sigs;
      SignaturesStep(ss, sigs', i);
      Behind(front, SignaturesBytes(ss[..i], sigs), SignatureBytes(ss[i], sig));
    }
  }

  lemma SignaturesStep(ss: seq<Signer>, sigs: seq<Bytes>, i: nat)
    requires i < |ss| && |sigs| == i + 1
    ensures SignaturesBytes(ss[..i + 1], sigs) == SignaturesBytes(ss[..i], sigs[..i]) + SignatureBytes(ss[i], sigs[i])
  {
    assert ss[..i + 1][..i] == ss[..i];
  }

  /** What the last signer's failure to fit would mean: it cannot happen. */
  lemma LastFits(embedded: Option<Bytes>, ss: seq<Signer>, sigs: seq<Bytes>, sig: Bytes, extAad: Field, payload: Field,
                 scratchSz: nat, outSz: nat)
    requires Prepared(embedded, ss, extAad, payload, scratchSz, outSz) && NoLonger(ss, extAad, payload)
    requires |sigs| < |ss| && MadeAll(ss, sigs + [sig], extAad, payload)
    ensures |SignFront(embedded, |ss|)| + |SignaturesBytes(ss[..|sigs|], sigs)| + |SignatureBytes(ss[|sigs|], sig)| <= outSz
  {
    hide *;
    var all := sigs + [sig];
    assert all[..|sigs|] == sigs && all[|sigs|] == sig;
    NextFits(embedded, ss, all, extAad, payload, scratchSz, outSz);
  }

  /** The signatures that the keys make. */
  function SigsOf(ss: seq<Signer>, extAad: Field, payload: Field): (sigs: seq<Bytes>)
    requires forall i :: 0 <= i < |ss| ==> Made(ss[i], extAad, payload).Signed?
    ensures |sigs| == |ss| && forall i :: 0 <= i < |ss| ==> Made(ss[i], extAad, payload) == Signed(sigs[i])
  {
    seq(|ss|, i requires 0 <= i < |ss| => Made(ss[i], extAad, payload).sig)
  }

  /** Every signer signs, and the message fits the output. */
  predicate AllWork(embedded: Option<Bytes>, ss: seq<Signer>, extAad: Field, payload: Field, scratchSz: nat, outSz: nat)
    requires |ss| < U64_BOUND
  {
    && (forall i :: 0 <= i < |ss| ==> Works(ss[i], extAad, payload, scratchSz) && Made(ss[i], extAad, payload).Signed?)
    && |SignMessage(embedded, ss, SigsOf(ss, extAad, payload))| <= outSz
  }

  /** A signer that does not sign, or a signature that does not fit, and the whole list. */
  lemma NotAllWork(embedded: Option<Bytes>, ss: seq<Signer>, i: nat, sigs: seq<Bytes>, extAad: Field, payload: Field,
                   scratchSz: nat, outSz: nat)
    requires i < |ss| < U64_BOUND && i == |sigs| && MadeAll(ss, sigs, extAad, payload)
    requires Works(ss[i], extAad, payload, scratchSz) ==>
      Made(ss[i], extAad, payload).Signed?
      && |SignFront(embedded, |ss|)| + |SignaturesBytes(ss[..i], sigs)| + |SignatureBytes(ss[i], Made(ss[i], extAad, payload).sig)|
         > outSz
    ensures !AllWork(embedded, ss, extAad, payload, scratchSz, outSz)
  {
    hide Works, Made, SignFront, SignaturesBytes, SignatureBytes;
    if AllWork(embedded, ss, extAad, payload, scratchSz, outSz) {
      var all := SigsOf(ss, extAad, payload);
      assert all[..i] == sigs && ss[..|ss|] == ss && all[..|ss|] == all;
      SignaturesNext(ss, all, i);
      SignaturesGrow(ss, all, i + 1);
    }
  }

  lemma {:induction false} SignaturesGrow(ss: seq<Signer>, sigs: seq<Bytes>, i: nat)
    requires i <= |ss| == |sigs|
    ensures |SignaturesBytes(ss[..i], sigs[..i])| <= |SignaturesBytes(ss, sigs)|
    decreases |ss| - i
  {
    hide SignaturesBytes, SignatureBytes;
    if i < |ss| {
      SignaturesNext(ss, sigs, i);
      SignaturesGrow(ss, sigs, i + 1);
    } else {
      assert ss[..i] == ss && sigs[..i] == sigs;
    }
  }

  lemma AllWorked(embedded: Option<Bytes>, ss: seq<Signer>, sigs: seq<Bytes>, extAad: Field, payload: Field,
                  scratchSz: nat, outSz: nat)
    requires |sigs| == |ss| < U64_BOUND && MadeAll(ss, sigs, extAad, payload) && |SignMessage(embedded, ss, sigs)| <= outSz
    requires forall i :: 0 <= i < |ss| ==> Works(ss[i], extAad, payload, scratchSz)
    ensures AllWork(embedded, ss, extAad, payload, scratchSz, outSz)
  {
    hide Works, Made, SignMessage;
    assert forall i :: 0 <= i < |ss| ==> Made(ss[i], extAad, payload).Signed?;
    assert SigsOf(ss, extAad, payload) == sigs;
  }

  lemma FrontTooLong(embedded: Option<Bytes>, ss: seq<Signer>, extAad: Field, payload: Field, scratchSz: nat, outSz: nat)
    requires |ss| < U64_BOUND && |SignFront(embedded, |ss|)| > outSz
    ensures !AllWork(embedded, ss, extAad, payload, scratchSz, outSz)
  {
    hide Works, Made, SignFront, SignaturesBytes;
  }

  /** Signing and writing, once everything is checked. */
  method SignAll(ss: seq<Signer>, embedded: Option<Bytes>, extAad: Bytes, signed: Bytes, scratch: array<byte>,
                 out: array<byte>) returns (ret: Status, outLen: nat, ghost sigs: seq<Bytes>, ghost spent: bool)
    requires 0 < |ss| <= SIZE_MAX / 8 && (forall i :: 0 <= i < |ss| ==> InInt32(ss[i].alg)) && scratch != out
    requires scratch.Length <= SIZE_MAX && LmsOnlyLast(ss)
    requires IsLms(ss[|ss| - 1]) ==> Prepared(embedded, ss, extAad, signed, scratch.Length, out.Length)
    modifies scratch, out
    ensures ret.Fail? ==> outLen == 0
    ensures ret.Success? <==> AllWork(embedded, ss, extAad, signed, scratch.Length, out.Length)
    ensures ret.Success? ==>
      && |sigs| == |ss| && MadeAll(ss, sigs, extAad, signed)
      && outLen == |SignMessage(embedded, ss, sigs)| <= out.Length
      && out[..outLen] == SignMessage(embedded, ss, sigs)
    ensures spent ==> IsLms(ss[|ss| - 1])
    ensures spent && NoLonger(ss, extAad, signed) ==>
      ret.Success? || OwnFailure(ss[|ss| - 1], Made(ss[|ss| - 1], extAad, signed))
  {
    hide Encoder.Valid, SignaturesBytes, SignatureBytes, SignFront, OwnFailure, Made, MadeAll, NoLonger, Prepared, Patch,
         Works, AllWork;
    outLen, sigs, spent := 0, [], false;
    var ctx := new Encoder(out, 0, out.Length);
    ghost var front := SignFront(embedded, |ss|);
    ret := EncodeFront(ctx, embedded, |ss|);
    NoneMade(ss, extAad, signed, front);
    if ret.Fail? {
      FrontTooLong(embedded, ss, extAad, signed, scratch.Length, out.Length);
    }
    var i := 0;
    while ret.Success? && i < |ss|
      invariant 0 <= i <= |ss| && ctx.Valid() && ctx.from == 0
      invariant ret.Success? ==> i == |sigs| && MadeAll(ss, sigs, extAad, signed)
      invariant ret.Success? ==> ctx.written == front + SignaturesBytes(ss[..i], sigs)
      invariant ret.Success? ==> forall k :: 0 <= k < i ==> Works(ss[k], extAad, signed, scratch.Length)
      invariant ret.Fail? ==> !AllWork(embedded, ss, extAad, signed, scratch.Length, out.Length)
      invariant spent ==> i == |ss| && IsLms(ss[|ss| - 1])
      invariant spent && NoLonger(ss, extAad, signed) ==>
        ret.Success? || OwnFailure(ss[|ss| - 1], Made(ss[|ss| - 1], extAad, signed))
      decreases ret.Success?, |ss| - i
    {
      var sig;
      ghost var used;
      ret, sig, used := SignNext(ss, i, extAad, signed, ctx, scratch, sigs, front);
      spent := used && IsLms(ss[i]);
      if ret.Fail? {
        WorksMade(ss[i], extAad, signed, scratch.Length);
        NotAllWork(embedded, ss, i, sigs, extAad, signed, scratch.Length, out.Length);
      }
      if ret.Success? {
        sigs := sigs + [sig];
      } else if spent && NoLonger(ss, extAad, signed) && MadeAll(ss, sigs + [sig], extAad, signed) {
        LastFits(embedded, ss, sigs, sig, extAad, signed, scratch.Length, out.Length);
      }
      i := i + 1;
    }
    if ret.Success? {
      outLen := ctx.idx;
      ctx.Done();
      assert ss[..|ss|] == ss;
      PatchPrefix(ctx.was, SignMessage(embedded, ss, sigs));
      AllWorked(embedded, ss, sigs, extAad, signed, scratch.Length, out.Length);
      assert out[..outLen] == out[..][..outLen];
    }
  }

  lemma NoneMade(ss: seq<Signer>, extAad: Field, payload: Field, front: seq<byte>)
    ensures MadeAll(ss, [], extAad, payload) && front + SignaturesBytes(ss[..0], []) == front
  {
  }

  /** The arguments are accepted, and the rule for HSS/LMS signers is kept. */
  predicate Accepted(ss: seq<Signer>, payload: Option<Bytes>, detached: Option<Bytes>, extAad: Bytes, scratchSz: nat,
                     outSz: nat)
  {
    && |ss| > 0 && (payload.Some? != detached.Some?)
    && (payload.Some? ==> |payload.value| <= WORD32_MAX) && (detached.Some? ==> |detached.value| <= WORD32_MAX)
    && |extAad| <= WORD32_MAX && scratchSz <= WORD32_MAX && outSz <= WORD32_MAX
    && (forall i :: 0 <= i < |ss| ==> ss[i].canSign && ss[i].kid != Some([]) && ss[i].keyCheck.Success?)
    && LmsOnlyLast(ss)
  }

  /** `wc_CoseSign_Sign`.  `sigs` are the signatures that were made; `spent` tells whether the
      key of an HSS/LMS signer was used. */
  method CoseSign(ss: seq<Signer>, payload: Option<Bytes>, detached: Option<Bytes>, extAad: Bytes,
                  scratch: array<byte>, out: array<byte>)
    returns (ret: Status, outLen: nat, ghost sigs: seq<Bytes>, ghost spent: bool)
    requires |ss| <= SIZE_MAX / 8 && (forall i :: 0 <= i < |ss| ==> InInt32(ss[i].alg)) && scratch != out
    modifies scratch, out
    ensures ret.Fail? ==> outLen == 0 && out[..] == Zeros(out.Length)
    ensures scratch[..] == Zeros(scratch.Length)
    ensures ret.Success? <==>
      && Accepted(ss, payload, detached, extAad, scratch.Length, out.Length)
      && var signed := if detached.Some? then detached.value else payload.value;
         && (IsLms(ss[|ss| - 1]) ==> Prepared(payload, ss, extAad, signed, scratch.Length, out.Length))
         && AllWork(payload, ss, extAad, signed, scratch.Length, out.Length)
    ensures ret.Success? ==>
      && |ss| > 0 && (payload.Some? != detached.Some?)
      && var signed := if detached.Some? then detached.value else payload.value;
         && |sigs| == |ss| && MadeAll(ss, sigs, extAad, signed)
         && outLen == |SignMessage(payload, ss, sigs)| <= out.Length
         && out[..outLen] == SignMessage(payload, ss, sigs)
    ensures spent ==>
      && |ss| > 0 && IsLms(ss[|ss| - 1]) && LmsOnlyLast(ss) && (payload.Some? != detached.Some?)
      && var signed := if detached.Some? then detached.value else payload.value;
         NoLonger(ss, extAad, signed) ==>
           ret.Success? || OwnFailure(ss[|ss| - 1], Made(ss[|ss| - 1], extAad, signed))
  {
    hide Accepted, AllWork, MadeAll, SignMessage, LmsOnlyLast, NoLonger, OwnFailure, Made, Prepared, Zeros;
    ret, outLen, sigs, spent := MakeSigned(ss, payload, detached, extAad, scratch, out);
    ghost var made := out[..];
    EraseAfter(ret, scratch, out);
    assert ret.Success? ==> out[..outLen] == made[..outLen];
  }

  /** The message, before anything is erased. */
  method MakeSigned(ss: seq<Signer>, payload: Option<Bytes>, detached: Option<Bytes>, extAad: Bytes,
                    scratch: array<byte>, out: array<byte>)
    returns (ret: Status, outLen: nat, ghost sigs: seq<Bytes>, ghost spent: bool)
    requires |ss| <= SIZE_MAX / 8 && (forall i :: 0 <= i < |ss| ==> InInt32(ss[i].alg)) && scratch != out
    modifies scratch, out
    ensures ret.Fail? ==> outLen == 0
    ensures ret.Success? <==>
      && Accepted(ss, payload, detached, extAad, scratch.Length, out.Length)
      && var signed := if detached.Some? then detached.value else payload.value;
         && (IsLms(ss[|ss| - 1]) ==> Prepared(payload, ss, extAad, signed, scratch.Length, out.Length))
         && AllWork(payload, ss, extAad, signed, scratch.Length, out.Length)
    ensures ret.Success? ==>
      && |ss| > 0 && (payload.Some? != detached.Some?)
      && var signed := if detached.Some? then detached.value else payload.value;
         && |sigs| == |ss| && MadeAll(ss, sigs, extAad, signed)
         && outLen == |SignMessage(payload, ss, sigs)| <= out.Length
         && out[..outLen] == SignMessage(payload, ss, sigs)
    ensures spent ==>
      && |ss| > 0 && IsLms(ss[|ss| - 1]) && LmsOnlyLast(ss) && (payload.Some? != detached.Some?)
      && var signed := if detached.Some? then detached.value else payload.value;
         NoLonger(ss, extAad, signed) ==>
           ret.Success? || OwnFailure(ss[|ss| - 1], Made(ss[|ss| - 1], extAad, signed))
  {
    hide Encoder.Valid, SignaturesBytes, SignatureBytes, SignFront, OwnFailure, Made, MadeAll, NoLonger, Prepared, Patch,
         AllWork, LmsOnlyLast;
    outLen, sigs, spent := 0, [], false;
    if |ss| == 0 || (payload.None? && detached.None?) {
      return Fail(InvalidArg), outLen, sigs, spent;
    }
    if (payload.Some? && |payload.value| > WORD32_MAX) || (detached.Some? && |detached.value| > WORD32_MAX)
       || |extAad| > WORD32_MAX || scratch.Length > WORD32_MAX || out.Length > WORD32_MAX {
      return Fail(InvalidArg), outLen, sigs, spent;
    }
    if payload.Some? && detached.Some? {
      return Fail(InvalidArg), outLen, sigs, spent;
    }
    var signed := if detached.Some? then detached.value else payload.value;
    ret := CheckSigners(ss);
    if ret.Success? {
      ret := Preflight(ss, payload, extAad, signed, scratch, out.Length);
    }
    if ret.Success? {
      ret, outLen, sigs, spent := SignAll(ss, payload, extAad, signed, scratch, out);
    }
  }
}
