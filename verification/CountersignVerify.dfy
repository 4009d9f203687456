/**
 Verifying countersignatures (sections 3.1 and 3.2 of RFC 9338), with the signature
 algorithm a parameter: attaching one never changes what the others verify over.
 */
module CountersignVerify {
  import opened Wire
  import opened Cbor
  import opened CborRoundTrip
  import opened Header
  import opened Recipients
  import opened Countersign
  import opened CountersignLemmas
  import opened CountersignLists
  import opened CountersignReparse
  import opened CountersignKeeps

  /** Checks a signature with some key: algorithm, signed bytes, signature. */
  type Verifier = (i64, seq<byte>, seq<byte>) -> Status

  /** The fields of a message fit the length fields of the structure that is signed. */
  predicate Sized(t: Target) {
    && |t.bodyProtected| <= SIZE_MAX && |t.payload| <= SIZE_MAX
    && (t.other.Some? ==> |t.other.value| <= SIZE_MAX)
  }

  predicate DetachedSized(detached: Option<seq<byte>>) {
    detached.Some? ==> |detached.value| <= SIZE_MAX
  }

  /** The fields of a message in memory fit. */
  lemma TargetSized(s: seq<byte>, detached: Option<seq<byte>>)
    requires ParseTarget(s, detached).Ok? && |s| <= SIZE_MAX && DetachedSized(detached)
    ensures Sized(ParseTarget(s, detached).value)
  {
    hide DecodeString, DecodeContainer, ProtectedHdr, ParseMaps, ParseChildren, DecodeHead;
    var f := ParseFront(s);
    var m := ParseMaps(s, f.next, f.value.labels);
    var i := DecodeTag(s, 0, false).next;
    var j := DecodeArray(s, i, false).next;
    BstrSized(s, j);
    var p := Payload(s, m.next, detached);
    if m.next < |s| && s[m.next] == NULL_BYTE {
    } else {
      BstrSized(s, m.next);
    }
    if HasOther(f.value.tag) {
      BstrSized(s, p.next);
    }
  }

  lemma CounterSized(c: seq<byte>)
    requires FullCounter(c).Ok?
    ensures |FullCounter(c).value.prot| <= |c| && |FullCounter(c).value.sig| <= |c|
  {
    hide DecodeString, DecodeContainer, ProtectedHdr, UnprotectedHdr;
    var i := DecodeArray(c, 0, false).next;
    BstrSized(c, i);
    var p := DecodeBstr(c, i, false);
    var ps := ProtectedHdr(p.value, false).value;
    BstrSized(c, UnprotectedHdr(c, p.next, Labels(ps), false).next);
  }

  /** Where the full countersignatures to verify are: label 11, or the older label 7. */
  function FullSource(t: Target): (r: Option<(Range, bool)>) {
    if t.full.Some? then Some((t.full.value, false))
    else if t.legacyFull.Some? then Some((t.legacyFull.value, true))
    else None
  }

  /** The algorithm a decoded countersignature names. */
  function CounterAlg(c: seq<byte>, p: CounterParts): (alg: i64) {
    match AlgField(c, p.us, false)
    case Some(n) => n
    case None => match AlgField(p.prot, p.ps, false) { case Some(n) => n case None => ALG_UNSET }
  }

  /** Verifies the bytes of one full countersignature over a message. */
  function VerifyCounter(t: Target, c: seq<byte>, legacy: bool, extAad: seq<byte>, scratchSz: nat, keyAlg: i64,
                         verify: Verifier): (r: Status)
    requires Sized(t) && |c| <= SIZE_MAX && |extAad| <= SIZE_MAX
  {
    match FullCounter(c)
    case Err(e) => Fail(e)
    case Ok(p, _) =>
      CounterSized(c);
      var alg := CounterAlg(c, p);
      if IntLabel(ALG) !in Labels(p.ps) && (keyAlg == ALG_UNSET || keyAlg != alg) then Fail(CoseBadAlg)
      else
        var tbs := CounterStructure(t, Some(p.prot), extAad, legacy);
        if |tbs| > scratchSz then Fail(BufferTooSmall) else verify(alg, tbs, p.sig)
  }

  /** `wc_Cose_VerifyCounterSignature`: verifies the full countersignature with an index. */
  function VerifyFull(s: seq<byte>, detached: Option<seq<byte>>, index: nat, extAad: seq<byte>, scratchSz: nat,
                      keyAlg: i64, verify: Verifier): (r: Status)
    requires |s| <= SIZE_MAX && DetachedSized(detached) && |extAad| <= SIZE_MAX
  {
    match ParseTarget(s, detached)
    case Err(e) => Fail(e)
    case Ok(t, _) =>
      match FullSource(t)
      case None => Fail(CoseBadHdr)
      case Some(src) =>
        TargetSized(s, detached);
        VerifySelected(t, FullValue(s, src.0), index, src.1, extAad, scratchSz, keyAlg, verify)
  }

  /** Verifies the full countersignature with an index in a value. */
  function VerifySelected(t: Target, v: seq<byte>, index: nat, legacy: bool, extAad: seq<byte>, scratchSz: nat,
                          keyAlg: i64, verify: Verifier): (r: Status)
    requires Sized(t) && |v| <= SIZE_MAX && |extAad| <= SIZE_MAX
  {
    match SelectFullCounter(v, index)
    case Err(e) => Fail(e)
    case Ok(c, _) => VerifyCounter(t, c, legacy, extAad, scratchSz, keyAlg, verify)
  }

  /** `wc_Cose_VerifyCounterSignature0`: verifies the abbreviated countersignature. */
  function VerifyAbbreviated(s: seq<byte>, detached: Option<seq<byte>>, extAad: seq<byte>, scratchSz: nat, alg: i64,
                             verify: Verifier): (r: Status)
    requires |s| <= SIZE_MAX && DetachedSized(detached) && |extAad| <= SIZE_MAX
  {
    match ParseTarget(s, detached)
    case Err(e) => Fail(e)
    case Ok(t, _) =>
      if t.abbreviated.None? && t.legacyAbbreviated.None? then Fail(CoseBadHdr)
      else
        var legacy := t.abbreviated.None?;
        var v := FullValue(s, if legacy then t.legacyAbbreviated.value else t.abbreviated.value);
        TargetSized(s, detached);
        VerifyValue(t, v, legacy, extAad, scratchSz, alg, verify)
  }

  function VerifyValue(t: Target, v: seq<byte>, legacy: bool, extAad: seq<byte>, scratchSz: nat, alg: i64,
                       verify: Verifier): (r: Status)
    requires Sized(t) && |extAad| <= SIZE_MAX
  {
    match DecodeBstr(v, 0, false)
    case Err(e) => Fail(e)
    case Ok(sig, e) =>
      if e != |v| then Fail(CborMalformed)
      else
        var tbs := CounterStructure(t, None, extAad, legacy);
        if |tbs| > scratchSz then Fail(BufferTooSmall) else verify(alg, tbs, sig)
  }

  // ----- Attaching keeps what verifies -----

  /** The structure that is signed depends only on the signed fields. */
  lemma SameStructure(t: Target, t': Target, prot: Option<seq<byte>>, extAad: seq<byte>, legacy: bool)
    requires SameFields(t, t') && Sized(t) && |extAad| <= SIZE_MAX && (prot.Some? ==> |prot.value| <= SIZE_MAX)
    ensures Sized(t') && CounterStructure(t', prot, extAad, legacy) == CounterStructure(t, prot, extAad, legacy)
  {
  }

  lemma SameVerifyCounter(t: Target, t': Target, c: seq<byte>, legacy: bool, extAad: seq<byte>, scratchSz: nat,
                          keyAlg: i64, verify: Verifier)
    requires SameFields(t, t') && Sized(t) && Sized(t') && |c| <= SIZE_MAX && |extAad| <= SIZE_MAX
    ensures VerifyCounter(t', c, legacy, extAad, scratchSz, keyAlg, verify)
         == VerifyCounter(t, c, legacy, extAad, scratchSz, keyAlg, verify)
  {
    hide FullCounter, CounterStructure, CounterAlg, Labels;
    if FullCounter(c).Ok? {
      CounterSized(c);
      SameStructure(t, t', Some(FullCounter(c).value.prot), extAad, legacy);
    }
  }

  /** The full countersignature with an index, in the list of all of them. */
  lemma Selected(s: seq<byte>, t: Target, index: nat)
    requires t.full.Some? && CounterListInfo(FullValue(s, t.full.value)).Ok?
    ensures var r := SelectFullCounter(FullValue(s, t.full.value), index);
      && (index < |FullCounters(s, t)| ==> r.Ok? && r.value == FullCounters(s, t)[index])
      && (index >= |FullCounters(s, t)| ==> r == Err(InvalidArg))
  {
    hide CounterListInfo, Counters;
  }

  /** What verifying the full countersignature with an index comes to. */
  lemma VerifyFullIs(s: seq<byte>, detached: Option<seq<byte>>, index: nat, extAad: seq<byte>, scratchSz: nat,
                     keyAlg: i64, verify: Verifier)
    requires |s| <= SIZE_MAX && DetachedSized(detached) && |extAad| <= SIZE_MAX
    requires ParseTarget(s, detached).Ok? && ParseTarget(s, detached).value.full.Some?
    requires var t := ParseTarget(s, detached).value;
      CounterListInfo(FullValue(s, t.full.value)).Ok? && index < |FullCounters(s, t)|
    ensures var t := ParseTarget(s, detached).value; var c := FullCounters(s, t)[index];
      && Sized(t) && |c| <= SIZE_MAX
      && VerifyFull(s, detached, index, extAad, scratchSz, keyAlg, verify)
         == VerifyCounter(t, c, false, extAad, scratchSz, keyAlg, verify)
  {
    hide ParseTarget, CounterListInfo, SelectFullCounter, FullCounters, VerifyCounter;
    var t := ParseTarget(s, detached).value;
    TargetSized(s, detached);
    Selected(s, t, index);
  }

  /** Full countersignatures before and after one was attached verify alike; the new one, at
      the index behind them, verifies exactly as its signature does over the structure of
      the message; and the abbreviated countersignature verifies as before. */
  lemma VerifyAfterFullAttach(s: seq<byte>, detached: Option<seq<byte>>, alg: i64, kid: seq<byte>, sig: seq<byte>,
                              extAad: seq<byte>, scratchSz: nat, keyAlg: i64, verify: Verifier)
    requires |s| <= SIZE_MAX && DetachedSized(detached) && |extAad| <= SIZE_MAX
    requires InInt32(alg) && |kid| <= SIZE_MAX && |sig| <= SIZE_MAX && ParseTarget(s, detached).Ok?
    requires var t, ctr := ParseTarget(s, detached).value, FullCounterBytes(AlgHeader(alg), kid, sig);
      && RoomForFull(s, t) && NestsDeeper(s, t)
      && |ctr| <= SIZE_MAX && |WithFull(s, t, ctr)| <= SIZE_MAX
    ensures var t, ctr := ParseTarget(s, detached).value, FullCounterBytes(AlgHeader(alg), kid, sig);
      var u, n := WithFull(s, t, ctr), |FullCounters(s, t)|;
      && Sized(t)
      && (forall k :: 0 <= k < n ==>
            VerifyFull(u, detached, k, extAad, scratchSz, keyAlg, verify)
            == VerifyFull(s, detached, k, extAad, scratchSz, keyAlg, verify))
      && VerifyFull(u, detached, n, extAad, scratchSz, keyAlg, verify)
         == (var tbs := CounterStructure(t, Some(AlgHeader(alg)), extAad, false);
             if |tbs| > scratchSz then Fail(BufferTooSmall) else verify(alg, tbs, sig))
      && VerifyAbbreviated(u, detached, extAad, scratchSz, keyAlg, verify)
         == VerifyAbbreviated(s, detached, extAad, scratchSz, keyAlg, verify)
  {
    hide *;
    var t, ctr := ParseTarget(s, detached).value, FullCounterBytes(AlgHeader(alg), kid, sig);
    WrittenCounter(alg, kid, sig);
    FullAttachKeepsEarlier(s, detached, ctr);
    var u := WithFull(s, t, ctr);
    var t' := ParseTarget(u, detached).value;
    TargetSized(s, detached);
    TargetSized(u, detached);
    var n := |FullCounters(s, t)|;
    GrownSource(u, t', n);
    forall k | 0 <= k < n
      ensures VerifyFull(u, detached, k, extAad, scratchSz, keyAlg, verify)
           == VerifyFull(s, detached, k, extAad, scratchSz, keyAlg, verify)
    {
      GrownSource(s, t, k);
      VerifyFullIs(s, detached, k, extAad, scratchSz, keyAlg, verify);
      VerifyFullIs(u, detached, k, extAad, scratchSz, keyAlg, verify);
      SameVerifyCounter(t, t', FullCounters(s, t)[k], false, extAad, scratchSz, keyAlg, verify);
    }
    VerifyFullIs(u, detached, n, extAad, scratchSz, keyAlg, verify);
    SameVerifyCounter(t, t', ctr, false, extAad, scratchSz, keyAlg, verify);
    VerifyWritten(t, alg, kid, sig, extAad, scratchSz, keyAlg, verify);
    SameVerifyAbbreviated(s, u, detached, extAad, scratchSz, keyAlg, verify);
  }

  /** A message with full countersignatures has a value that lists them. */
  lemma GrownSource(s: seq<byte>, t: Target, k: nat)
    requires k < |FullCounters(s, t)|
    ensures t.full.Some? && CounterListInfo(FullValue(s, t.full.value)).Ok?
  {
    hide CounterListInfo, Counters;
  }

  lemma VerifyWritten(t: Target, alg: i64, kid: seq<byte>, sig: seq<byte>, extAad: seq<byte>, scratchSz: nat,
                      keyAlg: i64, verify: Verifier)
    requires Sized(t) && |extAad| <= SIZE_MAX && InInt32(alg) && |kid| <= SIZE_MAX && |sig| <= SIZE_MAX
    requires |FullCounterBytes(AlgHeader(alg), kid, sig)| <= SIZE_MAX
    ensures VerifyCounter(t, FullCounterBytes(AlgHeader(alg), kid, sig), false, extAad, scratchSz, keyAlg, verify)
         == (var tbs := CounterStructure(t, Some(AlgHeader(alg)), extAad, false);
             if |tbs| > scratchSz then Fail(BufferTooSmall) else verify(alg, tbs, sig))
  {
    hide FullCounter, FullCounterBytes, AlgHeader, CounterStructure, AlgField, Labels;
    WrittenCounter(alg, kid, sig);
  }

  lemma SameVerifyAbbreviated(s: seq<byte>, u: seq<byte>, detached: Option<seq<byte>>, extAad: seq<byte>,
                              scratchSz: nat, alg: i64, verify: Verifier)
    requires |s| <= SIZE_MAX && |u| <= SIZE_MAX && DetachedSized(detached) && |extAad| <= SIZE_MAX
    requires ParseTarget(s, detached).Ok? && ParseTarget(u, detached).Ok?
    requires var t, t' := ParseTarget(s, detached).value, ParseTarget(u, detached).value;
      && SameFields(t, t') && OthersKept(s, t, u, t')
      && ValueBytes(u, t'.abbreviated) == ValueBytes(s, t.abbreviated) && (t'.abbreviated.Some? <==> t.abbreviated.Some?)
    ensures VerifyAbbreviated(u, detached, extAad, scratchSz, alg, verify)
         == VerifyAbbreviated(s, detached, extAad, scratchSz, alg, verify)
  {
    hide ParseTarget, CounterStructure, DecodeString;
    TargetSized(s, detached);
    TargetSized(u, detached);
    SameStructure(ParseTarget(s, detached).value, ParseTarget(u, detached).value, None, extAad, true);
    SameStructure(ParseTarget(s, detached).value, ParseTarget(u, detached).value, None, extAad, false);
  }

  /** After an abbreviated countersignature was attached it verifies exactly as its
      signature does over the structure of the message, and every full countersignature
      verifies as before. */
  lemma VerifyAfterAbbreviatedAttach(s: seq<byte>, detached: Option<seq<byte>>, sig: seq<byte>, index: nat,
                                     extAad: seq<byte>, scratchSz: nat, alg: i64, verify: Verifier)
    requires |s| <= SIZE_MAX && DetachedSized(detached) && |extAad| <= SIZE_MAX && |sig| <= SIZE_MAX
    requires ParseTarget(s, detached).Ok?
    requires var t := ParseTarget(s, detached).value;
      && t.abbreviated.None? && t.mapCount < MAX_MAP_ITEMS
      && |WithEntry(s, t, COUNTERSIGNATURE0_V2, EncodeBstr(sig))| <= SIZE_MAX
    ensures var t := ParseTarget(s, detached).value;
      var u := WithEntry(s, t, COUNTERSIGNATURE0_V2, EncodeBstr(sig));
      && Sized(t)
      && VerifyAbbreviated(u, detached, extAad, scratchSz, alg, verify)
         == (var tbs := CounterStructure(t, None, extAad, false);
             if |tbs| > scratchSz then Fail(BufferTooSmall) else verify(alg, tbs, sig))
      && VerifyFull(u, detached, index, extAad, scratchSz, alg, verify)
         == VerifyFull(s, detached, index, extAad, scratchSz, alg, verify)
  {
    hide *;
    var t := ParseTarget(s, detached).value;
    AbbreviatedAttachKeepsEarlier(s, detached, sig);
    var u := WithEntry(s, t, COUNTERSIGNATURE0_V2, EncodeBstr(sig));
    var t' := ParseTarget(u, detached).value;
    TargetSized(s, detached);
    TargetSized(u, detached);
    SameStructure(t, t', None, extAad, false);
    AbbreviatedVerifies(u, t', detached, sig, extAad, scratchSz, alg, verify);
    SameVerifyFull(s, u, detached, index, extAad, scratchSz, alg, verify);
  }

  lemma AbbreviatedVerifies(u: seq<byte>, t: Target, detached: Option<seq<byte>>, sig: seq<byte>, extAad: seq<byte>,
                            scratchSz: nat, alg: i64, verify: Verifier)
    requires |u| <= SIZE_MAX && DetachedSized(detached) && |extAad| <= SIZE_MAX && |sig| <= SIZE_MAX
    requires ParseTarget(u, detached).Ok? && ParseTarget(u, detached).value == t && Sized(t)
    requires t.abbreviated.Some? && ValueBytes(u, t.abbreviated) == Some(EncodeBstr(sig))
    ensures VerifyAbbreviated(u, detached, extAad, scratchSz, alg, verify)
         == (var tbs := CounterStructure(t, None, extAad, false);
             if |tbs| > scratchSz then Fail(BufferTooSmall) else verify(alg, tbs, sig))
  {
    hide ParseTarget, CounterStructure, DecodeString, EncodeString, SameSlice;
    SliceSelf(EncodeBstr(sig));
    BstrRead(sig, EncodeBstr(sig), 0);
  }

  lemma SameVerifyFull(s: seq<byte>, u: seq<byte>, detached: Option<seq<byte>>, index: nat, extAad: seq<byte>,
                       scratchSz: nat, keyAlg: i64, verify: Verifier)
    requires |s| <= SIZE_MAX && |u| <= SIZE_MAX && DetachedSized(detached) && |extAad| <= SIZE_MAX
    requires ParseTarget(s, detached).Ok? && ParseTarget(u, detached).Ok?
    requires var t, t' := ParseTarget(s, detached).value, ParseTarget(u, detached).value;
      && SameFields(t, t') && OthersKept(s, t, u, t')
      && ValueBytes(u, t'.full) == ValueBytes(s, t.full) && (t'.full.Some? <==> t.full.Some?)
    ensures VerifyFull(u, detached, index, extAad, scratchSz, keyAlg, verify)
         == VerifyFull(s, detached, index, extAad, scratchSz, keyAlg, verify)
  {
    hide ParseTarget, SelectFullCounter, VerifyCounter;
    var t, t' := ParseTarget(s, detached).value, ParseTarget(u, detached).value;
    TargetSized(s, detached);
    TargetSized(u, detached);
    if FullSource(t).Some? {
      var src := FullSource(t).value;
      var v := FullValue(s, src.0);
      if SelectFullCounter(v, index).Ok? {
        SameVerifyCounter(t, t', SelectFullCounter(v, index).value, src.1, extAad, scratchSz, keyAlg, verify);
      }
    }
  }
}
