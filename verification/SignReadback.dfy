/**
 A COSE_Sign message is read back (section 4.1 of RFC 9052): the bytes that signing writes parse
 to their payload and to one signature for every signer, and every signature covers what was parsed.
 */
module SignReadback {
  import opened Wire
  import opened Cbor
  import opened CborRoundTrip
  import opened NestedArrays
  import opened Header
  import opened HeaderLemmas
  import opened Recipients
  import opened Countersign
  import opened CountersignLemmas
  import opened CountersignLists
  import opened CountersignAdd
  import opened Structures
  import opened MessageShape
  import opened MultiSign

  // ----- Reading signatures -----

  /** `n` signatures in a row, each one whole: their bytes. */
  function SignatureItems(s: seq<byte>, i: nat, n: nat): (r: Dec<seq<seq<byte>>>)
    ensures r.Ok? ==> |r.value| == n
    decreases n
  {
    if n == 0 then Ok([], i)
    else
      var (_, j) :- SkippedSignature(s, i);
      var (cs, e) :- SignatureItems(s, j, n - 1);
      Ok([s[i..j]] + cs, e)
  }

  /** Where the parts of a written signature stand. */
  lemma SignatureParts(alg: i64, kid: Bytes, sig: Bytes, s: seq<byte>, i: nat)
    requires var c := FullCounterBytes(AlgHeader(alg), kid, sig); SameSlice(c, 0, s, i, |c|)
    ensures var c := FullCounterBytes(AlgHeader(alg), kid, sig);
      var p, m, v := EncodeBstr(AlgHeader(alg)), KidMap(kid), EncodeBstr(sig);
      && i + |c| <= |s| && |c| == 1 + |p| + |m| + |v| && |p| >= 1 && |m| >= 1 && |v| >= 1
      && SameSlice(EncodeHead(ARRAY, 3), 0, s, i, 1) && SameSlice(p, 0, s, i + 1, |p|)
      && SameSlice(m, 0, s, i + 1 + |p|, |m|) && SameSlice(v, 0, s, i + 1 + |p| + |m|, |v|)
  {
    hide EncodeHead, EncodeString, AlgHeader, KidMap, SameSlice;
    var h, p, m, v := EncodeHead(ARRAY, 3), EncodeBstr(AlgHeader(alg)), KidMap(kid), EncodeBstr(sig);
    var c := FullCounterBytes(AlgHeader(alg), kid, sig);
    FourParts(h, p, m, v);
    KidMapThere(kid);
    SameSliceBound(c, 0, s, i, |c|);
    Within(h, c, 0, s, i);
    Within(p, c, 1, s, i);
    Within(m, c, 1 + |p|, s, i);
    Within(v, c, 1 + |p| + |m|, s, i);
  }

  /** A written signature stands as one item. */
  lemma SignatureStands(alg: i64, kid: Bytes, sig: Bytes, s: seq<byte>, i: nat)
    requires InInt32(alg) && |s| <= SIZE_MAX
    requires var c := FullCounterBytes(AlgHeader(alg), kid, sig); SameSlice(c, 0, s, i, |c|)
    ensures var c := FullCounterBytes(AlgHeader(alg), kid, sig);
      && i + |c| <= |s| && s[i..i + |c|] == c && |c| >= 4
      && SkippedSignature(s, i) == Ok((), i + |c|)
  {
    hide DecodeHead, EncodeHead, EncodeBstr, DecodeArray, DecodeBstr, AlgHeader, KidMap, SameSlice, SkipItems,
         UnprotectedHdr, BstrField, AlgField, FullCounterBytes;
    SignatureParts(alg, kid, sig, s, i);
    var j := i + 1 + |EncodeBstr(AlgHeader(alg))|;
    var k := j + |KidMap(kid)|;
    DecodeArrayIs(s, i, 3);
    BstrRead(AlgHeader(alg), s, i + 1);
    KidMapAccepted(kid, s, j);
    SkipDeeper(s, j, 1, 1, CBOR_MAX_DEPTH, false);
    BstrRead(sig, s, k);
    SliceOf(FullCounterBytes(AlgHeader(alg), kid, sig), s, i);
  }

  lemma KidMapThere(kid: Bytes)
    ensures |KidMap(kid)| >= 1
  {
    hide EncodeHead, EncodeInt, EncodeBstr;
  }

  lemma SliceOf(c: seq<byte>, s: seq<byte>, i: nat)
    requires SameSlice(c, 0, s, i, |c|)
    ensures i + |c| <= |s| && s[i..i + |c|] == c
  {
    assert c[0..|c|] == c;
  }

  lemma {:induction false} SignaturesCons(ss: seq<Signer>, sigs: seq<Bytes>)
    requires |ss| == |sigs| > 0
    ensures SignaturesBytes(ss, sigs) == SignatureBytes(ss[0], sigs[0]) + SignaturesBytes(ss[1..], sigs[1..])
  {
    hide SignatureBytes;
    var n := |ss| - 1;
    if n == 0 {
      assert ss[..0] == [] == ss[1..] && sigs[..0] == [] == sigs[1..];
    } else {
      SignaturesCons(ss[..n], sigs[..n]);
      assert ss[..n][1..] == ss[1..][..n - 1] && sigs[..n][1..] == sigs[1..][..n - 1];
      assert ss[1..][n - 1] == ss[n] && sigs[1..][n - 1] == sigs[n];
    }
  }

  function Written(ss: seq<Signer>, sigs: seq<Bytes>): (cs: seq<seq<byte>>)
    requires |ss| == |sigs|
    ensures |cs| == |ss| && forall i :: 0 <= i < |ss| ==> cs[i] == SignatureBytes(ss[i], sigs[i])
  {
    seq(|ss|, i requires 0 <= i < |ss| => SignatureBytes(ss[i], sigs[i]))
  }

  predicate Algorithms(ss: seq<Signer>) {
    forall i :: 0 <= i < |ss| ==> InInt32(ss[i].alg)
  }

  /** Written signatures are read back in order. */
  lemma {:induction false} SignaturesRead(ss: seq<Signer>, sigs: seq<Bytes>, s: seq<byte>, i: nat)
    requires |ss| == |sigs| && Algorithms(ss) && |s| <= SIZE_MAX
    requires SameSlice(SignaturesBytes(ss, sigs), 0, s, i, |SignaturesBytes(ss, sigs)|)
    ensures SignatureItems(s, i, |ss|) == Ok(Written(ss, sigs), i + |SignaturesBytes(ss, sigs)|)
    ensures Children(s, i, |ss|, TAG_SIGN) == Ok((), i + |SignaturesBytes(ss, sigs)|)
    ensures |SignaturesBytes(ss, sigs)| >= |ss|
    decreases |ss|
  {
    hide SignatureBytes, SignaturesBytes, SkippedSignature, SameSlice, Children;
    if ss == [] {
      NoSignatures();
      ChildrenNone(s, i, TAG_SIGN);
    } else {
      SignaturesCons(ss, sigs);
      var all, c, r := SignaturesBytes(ss, sigs), SignatureBytes(ss[0], sigs[0]), SignaturesBytes(ss[1..], sigs[1..]);
      ThreeParts(c, r, []);
      assert all == c + r + [];
      Within(c, all, 0, s, i);
      Within(r, all, |c|, s, i);
      OneStands(ss[0], sigs[0], s, i);
      ChildrenStep(s, i, |ss|, TAG_SIGN);
      SignaturesRead(ss[1..], sigs[1..], s, i + |c|);
      assert Written(ss, sigs) == [c] + Written(ss[1..], sigs[1..]);
    }
  }

  lemma NoSignatures()
    ensures SignaturesBytes([], []) == []
  {
  }

  lemma OneStands(x: Signer, sig: Bytes, s: seq<byte>, i: nat)
    requires InInt32(x.alg) && |s| <= SIZE_MAX && SameSlice(SignatureBytes(x, sig), 0, s, i, |SignatureBytes(x, sig)|)
    ensures var c := SignatureBytes(x, sig);
      && i + |c| <= |s| && s[i..i + |c|] == c && |c| >= 4
      && SkippedSignature(s, i) == Ok((), i + |c|) && Child(s, i, TAG_SIGN) == Ok((), i + |c|)
  {
    hide SkippedSignature, FullCounterBytes, SameSlice, AlgHeader;
    SignatureStands(x.alg, SignerKid(x), sig, s, i);
  }

  // ----- The whole message -----

  /** What stands before the array of signatures: the tag 98, an array of four, an empty byte string, an
      empty map, and the payload or null. */
  function BeforeSignatures(embedded: Option<Bytes>): (b: seq<byte>) {
    [0xD8, 0x62, 0x84, 0x40, 0xA0] + ContentItem(embedded)
  }

  lemma FrontIs(embedded: Option<Bytes>, n: u64)
    ensures SignFront(embedded, n) == BeforeSignatures(embedded) + EncodeHead(ARRAY, n)
  {
    assert EncodeHead(TAG, TAG_SIGN) == [0xD8, 0x62] by {
      assert ToBE(98, 1) == [98] by {
        assert ToBE(0, 0) == [];
      }
    }
    assert EncodeHead(ARRAY, 4) == [0x84] && EncodeBstr([]) == [0x40] && EncodeHead(MAP, 0) == [0xA0];
    hide EncodeHead, EncodeBstr;
  }

  lemma TagThere(s: seq<byte>)
    requires |s| >= 2 && s[0] == 0xD8 && s[1] == 0x62
    ensures PeekType(s, 0) == TAG && DecodeTag(s, 0, false) == Ok(98, 2)
  {
    assert s[1..2] == [0x62];
    assert FromBE([0x62]) == 98 by {
      assert [0x62][..0] == [];
    }
  }

  lemma EmptyStringRead(s: seq<byte>, i: nat)
    requires i < |s| && s[i] == 0x40
    ensures DecodeBstr(s, i, false) == Ok([], i + 1)
  {
    hide DecodeHead;
    ByteHead(s, i, false);
  }

  lemma EmptyMapRead(s: seq<byte>, i: nat)
    requires i < |s| && s[i] == 0xA0
    ensures WalkMap(s, i, Counter, {}, false) == Ok([], i + 1) && UnprotectedHdr(s, i, {}, false) == Ok([], i + 1)
    ensures MapContentStart(s, i) == i + 1
  {
    hide DecodeHead, Walk;
    ByteHead(s, i, false);
    NoLabels();
    WalkNone(s, i + 1, Counter, {}, false);
    WalkNone(s, i + 1, Unprotected, {}, false);
  }

  /** The front of a written message. */
  lemma FrontRead(s: seq<byte>)
    requires |s| >= 7 && s[0] == 0xD8 && s[1] == 0x62 && s[2] == 0x84 && s[3] == 0x40 && s[4] == 0xA0
    ensures ParseFront(s) == Ok(Front(98, [], {}), 4) && ParseMaps(s, 4, {}) == Ok([], 5)
  {
    hide DecodeHead, Walk, WalkMap, UnprotectedHdr, DecodeTag, DecodeBstr;
    TagThere(s);
    ByteHead(s, 2, false);
    EmptyStringRead(s, 3);
    EmptyMapRead(s, 4);
    NoLabels();
  }

  /** A written message parses: no protected field, the payload that was signed, no other field; and
      the array behind the payload holds exactly the signatures. */
  lemma SignParses(embedded: Option<Bytes>, detached: Option<Bytes>, ss: seq<Signer>, sigs: seq<Bytes>)
    requires 0 < |ss| == |sigs| < U64_BOUND && Algorithms(ss) && (embedded.Some? || detached.Some?)
    requires |SignMessage(embedded, ss, sigs)| <= SIZE_MAX
    ensures var s, k := SignMessage(embedded, ss, sigs), |BeforeSignatures(embedded)|;
      var r := ParseTarget(s, detached);
      && r.Ok? && r.value.tag == 98 && r.value.bodyProtected == [] && r.value.other == None && r.value.mapCount == 0
      && r.value.payload == (if embedded.Some? then embedded.value else detached.value)
      && k <= |s| && s[..k] == BeforeSignatures(embedded)
      && DecodeArray(s, k, false).Ok? && DecodeArray(s, k, false).value == |ss|
      && SignatureItems(s, DecodeArray(s, k, false).next, |ss|) == Ok(Written(ss, sigs), |s|)
  {
    hide DecodeHead, DecodeArray, EncodeHead, EncodeBstr, ParseFront, ParseMaps, SignaturesBytes, SignFront, Children,
         SignatureItems, SameSlice, ContentItem, Written, MapContentStart, Located;
    var s := SignMessage(embedded, ss, sigs);
    var b, h, c := BeforeSignatures(embedded), EncodeHead(ARRAY, |ss|), SignaturesBytes(ss, sigs);
    FrontIs(embedded, |ss|);
    ThreeParts(b, h, c);
    assert s == b + h + c;
    var k := |b|;
    assert s[..k] == b;
    SignaturesRead(ss, sigs, s, k + |h|);
    DecodeArrayIs(s, k, |ss|);
    ContentThere(embedded, s);
    FrontRead(s);
    PayloadRead(embedded, detached, s);
  }

  lemma ContentThere(embedded: Option<Bytes>, s: seq<byte>)
    requires var b := BeforeSignatures(embedded); |b| <= |s| && s[..|b|] == b
    ensures s[0] == 0xD8 && s[1] == 0x62 && s[2] == 0x84 && s[3] == 0x40 && s[4] == 0xA0
    ensures |ContentItem(embedded)| >= 1 && SameSlice(ContentItem(embedded), 0, s, 5, |ContentItem(embedded)|)
  {
    hide EncodeBstr;
    var b, c := BeforeSignatures(embedded), ContentItem(embedded);
    assert b[5..] == c && s[5..5 + |c|] == s[..|b|][5..];
    assert forall j :: 0 <= j < 5 ==> s[j] == s[..|b|][j];
  }

  lemma PayloadRead(embedded: Option<Bytes>, detached: Option<Bytes>, s: seq<byte>)
    requires SameSlice(ContentItem(embedded), 0, s, 5, |ContentItem(embedded)|) && (embedded.Some? || detached.Some?)
    ensures Payload(s, 5, detached)
         == Ok(if embedded.Some? then embedded.value else detached.value, 5 + |ContentItem(embedded)|)
  {
    hide DecodeHead, EncodeString;
    if embedded.Some? {
      hide SameSlice;
      BstrRead(embedded.value, s, 5);
      BstrIsNoNull(s, 5);
    } else {
      SameSliceAt([0xF6], 0, s, 5, 1, 0);
    }
  }

  lemma BstrIsNoNull(s: seq<byte>, i: nat)
    requires DecodeHead(s, i, false).Ok? && DecodeHead(s, i, false).value.major == BSTR
    ensures s[i] != NULL_BYTE
  {
  }

  // ----- What every signature covers -----

  /** The Sig_structure of COSE_Sign: an array of the text "Signature", the protected bucket of the
      message, that of the signer, the external data and the payload. */
  function SigStructure(body: Field, sign: Field, extAad: Field, payload: Field): (b: seq<byte>) {
    [0x85, 0x69, 0x53, 0x69, 0x67, 0x6E, 0x61, 0x74, 0x75, 0x72, 0x65] + EncodeBstr(body) + EncodeBstr(sign)
    + EncodeBstr(extAad) + EncodeBstr(payload)
  }

  lemma SignedIs(x: Signer, extAad: Field, payload: Field)
    ensures SignerTbs(x, extAad, payload) == SigStructure([], AlgHeader(x.alg), extAad, payload)
  {
    hide EncodeBstr, AlgHeader;
    assert EncodeHead(ARRAY, 5) == [0x85] && EncodeHead(TSTR, 9) == [0x69];
    assert AsciiBytes("Signature") == [0x53, 0x69, 0x67, 0x6E, 0x61, 0x74, 0x75, 0x72, 0x65];
    assert EncodeTstr(CONTEXT_SIGN) == [0x69, 0x53, 0x69, 0x67, 0x6E, 0x61, 0x74, 0x75, 0x72, 0x65];
  }

  /** A parsed signature is that of a signer: its algorithm, protected and in no other bucket, its key
      identifier, unless it has none, and the bytes that its key makes of what was parsed. */
  predicate IsSignatureOf(c: seq<byte>, x: Signer, t: Target, extAad: Field) {
    var r := FullCounter(c);
    r.Ok? &&
    var p := r.value;
    && AlgField(p.prot, p.ps, false) == Some(x.alg) && IntLabel(1) in Labels(p.ps) && AlgField(c, p.us, false) == None
    && BstrField(c, p.us, 4, false) == (if x.kid == Some([]) then None else x.kid)
    && |t.bodyProtected| <= SIZE_MAX && |p.prot| <= SIZE_MAX && |t.payload| <= SIZE_MAX
    && var made := x.sign(SigStructure(t.bodyProtected, p.prot, extAad, t.payload)); made.Signed? && made.sig == p.sig
  }

  lemma WrittenIsSignature(x: Signer, sig: Bytes, t: Target, extAad: Field)
    requires InInt32(x.alg) && t.bodyProtected == [] && |t.payload| <= SIZE_MAX && Made(x, extAad, t.payload) == Signed(sig)
    ensures IsSignatureOf(SignatureBytes(x, sig), x, t, extAad)
  {
    hide FullCounter, FullCounterBytes, AlgHeader, AlgField, BstrField, Labels, SignerTbs, SigStructure;
    WrittenCounter(x.alg, SignerKid(x), sig);
    SignedIs(x, extAad, t.payload);
  }

  /** What signing writes is read back: the message parses to the payload, and the array behind it holds
      one signature for every signer, in order, each over what was parsed. */
  lemma SignedIsReadBack(embedded: Option<Bytes>, detached: Option<Bytes>, ss: seq<Signer>, sigs: seq<Bytes>, extAad: Field)
    requires 0 < |ss| == |sigs| < U64_BOUND && Algorithms(ss) && (embedded.Some? || detached.Some?)
    requires |SignMessage(embedded, ss, sigs)| <= SIZE_MAX
    requires MadeAll(ss, sigs, extAad, if embedded.Some? then embedded.value else detached.value)
    ensures var s, k := SignMessage(embedded, ss, sigs), |BeforeSignatures(embedded)|;
      var r := ParseTarget(s, detached);
      && r.Ok? && r.value.tag == 98 && r.value.bodyProtected == [] && r.value.other == None && r.value.mapCount == 0
      && r.value.payload == (if embedded.Some? then embedded.value else detached.value)
      && k <= |s| && s[..k] == BeforeSignatures(embedded)
      && DecodeArray(s, k, false).Ok? && DecodeArray(s, k, false).value == |ss|
      && var items := SignatureItems(s, DecodeArray(s, k, false).next, |ss|);
         && items.Ok? && items.next == |s|
         && forall i :: 0 <= i < |ss| ==> IsSignatureOf(items.value[i], ss[i], r.value, extAad)
  {
    hide ParseTarget, SignMessage, BeforeSignatures, DecodeArray, SignatureItems, IsSignatureOf, Made, SignatureBytes;
    SignParses(embedded, detached, ss, sigs);
    var t := ParseTarget(SignMessage(embedded, ss, sigs), detached).value;
    forall i | 0 <= i < |ss|
      ensures IsSignatureOf(Written(ss, sigs)[i], ss[i], t, extAad)
    {
      WrittenIsSignature(ss[i], sigs[i], t, extAad);
    }
  }
}
