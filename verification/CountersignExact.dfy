/**
 What verifying a countersignature comes to, spelled out for every label it can stand under:
 which bytes of the message it is, and which bytes its signature is checked over (sections 3.1 to
 3.3 of RFC 9338, and section 4.5 of RFC 8152 for the older labels).
 */
module CountersignExact {
  import opened Wire
  import opened Cbor
  import opened CborRoundTrip
  import opened Header
  import opened HeaderLemmas
  import opened HeaderFields
  import opened Countersign
  import opened CountersignLemmas
  import opened CountersignReparse
  import opened CountersignVerify

  // ----- What a signature covers -----

  /** The text "CounterSignature". */
  const NAME: seq<byte> := [0x43, 0x6F, 0x75, 0x6E, 0x74, 0x65, 0x72, 0x53, 0x69, 0x67, 0x6E, 0x61, 0x74, 0x75, 0x72, 0x65]

  /** The body of the message, what the countersigner adds, and the payload. */
  predicate Fields(body: seq<byte>, sign: seq<byte>, extAad: seq<byte>, payload: seq<byte>) {
    |body| <= SIZE_MAX && |sign| <= SIZE_MAX && |extAad| <= SIZE_MAX && |payload| <= SIZE_MAX
  }

  /** Five items, the first the text "CounterSignature". */
  function FullStructure(body: seq<byte>, sign: seq<byte>, extAad: seq<byte>, payload: seq<byte>): (b: seq<byte>)
    requires Fields(body, sign, extAad, payload)
  {
    [0x85, 0x70] + NAME + EncodeBstr(body) + EncodeBstr(sign) + EncodeBstr(extAad) + EncodeBstr(payload)
  }

  /** Six items, the first the text "CounterSignatureV2" and the last an array of the other field
      that the message has. */
  function FullStructureV2(body: seq<byte>, sign: seq<byte>, extAad: seq<byte>, payload: seq<byte>, other: seq<byte>)
    : (b: seq<byte>)
    requires Fields(body, sign, extAad, payload) && |other| <= SIZE_MAX
  {
    [0x86, 0x72] + NAME + [0x56, 0x32] + EncodeBstr(body) + EncodeBstr(sign) + EncodeBstr(extAad) + EncodeBstr(payload)
    + [0x81] + EncodeBstr(other)
  }

  /** Four items, the first the text "CounterSignature0". */
  function ShortStructure(body: seq<byte>, extAad: seq<byte>, payload: seq<byte>): (b: seq<byte>)
    requires Fields(body, [], extAad, payload)
  {
    [0x84, 0x71] + NAME + [0x30] + EncodeBstr(body) + EncodeBstr(extAad) + EncodeBstr(payload)
  }

  /** Five items, the first the text "CounterSignature0V2". */
  function ShortStructureV2(body: seq<byte>, extAad: seq<byte>, payload: seq<byte>, other: seq<byte>): (b: seq<byte>)
    requires Fields(body, [], extAad, payload) && |other| <= SIZE_MAX
  {
    [0x85, 0x73] + NAME + [0x30, 0x56, 0x32] + EncodeBstr(body) + EncodeBstr(extAad) + EncodeBstr(payload)
    + [0x81] + EncodeBstr(other)
  }

  /** The bytes of the context strings. */
  lemma Contexts()
    ensures EncodeTstr(CONTEXT_COUNTER) == [0x70] + NAME
    ensures EncodeTstr(CONTEXT_COUNTER0) == [0x71] + NAME + [0x30]
    ensures EncodeTstr(CONTEXT_COUNTER_V2) == [0x72] + NAME + [0x56, 0x32]
    ensures EncodeTstr(CONTEXT_COUNTER0_V2) == [0x73] + NAME + [0x30, 0x56, 0x32]
  {
    assert EncodeHead(TSTR, 16) == [0x70] && EncodeHead(TSTR, 17) == [0x71];
    assert EncodeHead(TSTR, 18) == [0x72] && EncodeHead(TSTR, 19) == [0x73];
    assert CONTEXT_COUNTER == NAME;
    assert CONTEXT_COUNTER0 == NAME + [0x30];
    assert CONTEXT_COUNTER_V2 == NAME + [0x56, 0x32];
    assert CONTEXT_COUNTER0_V2 == NAME + [0x30, 0x56, 0x32];
  }

  lemma SmallArrays()
    ensures EncodeHead(ARRAY, 1) == [0x81] && EncodeHead(ARRAY, 4) == [0x84] && EncodeHead(ARRAY, 5) == [0x85]
    ensures EncodeHead(ARRAY, 6) == [0x86]
  {
  }

  lemma FullIs(t: Target, sign: seq<byte>, extAad: seq<byte>, legacy: bool)
    requires Sized(t) && |sign| <= SIZE_MAX && |extAad| <= SIZE_MAX && (legacy || t.other.None?)
    ensures CounterStructure(t, Some(sign), extAad, legacy) == FullStructure(t.bodyProtected, sign, extAad, t.payload)
  {
    hide EncodeBstr, EncodeTstr, EncodeHead, AsciiBytes;
    Contexts();
    SmallArrays();
  }

  lemma FullV2Is(t: Target, sign: seq<byte>, extAad: seq<byte>)
    requires Sized(t) && |sign| <= SIZE_MAX && |extAad| <= SIZE_MAX && t.other.Some?
    ensures CounterStructure(t, Some(sign), extAad, false)
         == FullStructureV2(t.bodyProtected, sign, extAad, t.payload, t.other.value)
  {
    hide EncodeBstr, EncodeTstr, EncodeHead, AsciiBytes;
    Contexts();
    SmallArrays();
  }

  lemma ShortIs(t: Target, extAad: seq<byte>, legacy: bool)
    requires Sized(t) && |extAad| <= SIZE_MAX && (legacy || t.other.None?)
    ensures CounterStructure(t, None, extAad, legacy) == ShortStructure(t.bodyProtected, extAad, t.payload)
  {
    hide EncodeBstr, EncodeTstr, EncodeHead, AsciiBytes;
    Contexts();
    SmallArrays();
  }

  lemma ShortV2Is(t: Target, extAad: seq<byte>)
    requires Sized(t) && |extAad| <= SIZE_MAX && t.other.Some?
    ensures CounterStructure(t, None, extAad, false)
         == ShortStructureV2(t.bodyProtected, extAad, t.payload, t.other.value)
  {
    hide EncodeBstr, EncodeTstr, EncodeHead, AsciiBytes;
    Contexts();
    SmallArrays();
  }

  // ----- Where the signed fields stand -----

  /** The fields of a message in order: tag, array head, protected bucket, unprotected map, payload, the
      other byte string that a COSE_Sign1, COSE_Mac0 or COSE_Mac message has, and what is nested. */
  function TargetFields(tag: u64, n: u64, body: seq<byte>, bucket: seq<byte>, embedded: Option<seq<byte>>,
                        other: Option<seq<byte>>, nested: seq<byte>): (s: seq<byte>)
    requires |body| <= SIZE_MAX && (embedded.Some? ==> |embedded.value| <= SIZE_MAX)
    requires other.Some? ==> |other.value| <= SIZE_MAX
  {
    EncodeHead(TAG, tag) + EncodeHead(ARRAY, n) + EncodeBstr(body) + bucket
    + (if embedded.Some? then EncodeBstr(embedded.value) else [0xF6])
    + (if other.Some? then EncodeBstr(other.value) else []) + nested
  }

  lemma FrontStands(s: seq<byte>) returns (n: u64)
    requires ParseFront(s).Ok?
    ensures var f := ParseFront(s); var body := f.value.bodyProtected;
      && |body| <= SIZE_MAX && f.next <= |s|
      && s[..f.next] == EncodeHead(TAG, f.value.tag) + EncodeHead(ARRAY, n) + EncodeBstr(body)
      && (match f.value.tag
          case 16 => n == 3
          case 17 => n == 4
          case 18 => n == 4
          case 96 => n == 4
          case 97 => n == 5
          case 98 => n == 4
          case _ => false)
  {
    hide DecodeHead, DecodeContainer, DecodeString, ProtectedHdr, EncodeHead, EncodeBstr, Labels, HasCounterLabel;
    var t := DecodeTag(s, 0, false);
    var a := DecodeArray(s, t.next, false);
    n := a.value;
    TagStands(s, 0);
    ContainerStands(s, t.next, ARRAY);
    BstrStands(s, a.next);
    assert s[..ParseFront(s).next] == s[0..t.next] + s[t.next..a.next] + s[a.next..ParseFront(s).next];
  }

  /** The payload and what follows it. */
  lemma BackStands(s: seq<byte>, i: nat, tag: u64, detached: Option<seq<byte>>)
    returns (embedded: Option<seq<byte>>, nested: seq<byte>)
    requires ParseBack(s, i, tag, detached).Ok? && i <= |s|
    ensures var b := ParseBack(s, i, tag, detached).value;
      && (embedded.Some? ==> |embedded.value| <= SIZE_MAX && b.0 == embedded.value)
      && (embedded.None? ==> detached == Some(b.0))
      && (b.1.Some? <==> tag == 17 || tag == 18 || tag == 97) && (b.1.Some? ==> |b.1.value| <= SIZE_MAX)
      && s[i..] == (if embedded.Some? then EncodeBstr(embedded.value) else [0xF6])
                   + (if b.1.Some? then EncodeBstr(b.1.value) else []) + nested
      && (tag == 16 || tag == 17 || tag == 18 ==> nested == [])
  {
    hide DecodeHead, DecodeString, EncodeBstr, ParseChildren;
    var p := Payload(s, i, detached);
    if i < |s| && s[i] == NULL_BYTE {
      embedded := None;
    } else {
      embedded := Some(p.value);
      BstrStands(s, i);
    }
    var k := p.next;
    if HasOther(tag) {
      BstrStands(s, k);
      k := ParseOther(s, k).next;
    }
    nested := s[k..];
    assert s[i..] == s[i..p.next] + s[p.next..k] + s[k..];
  }

  /** What a parsed message is made of, and where: in particular the fields that are signed. */
  lemma TargetShape(s: seq<byte>, detached: Option<seq<byte>>)
    returns (n: u64, bucket: seq<byte>, embedded: Option<seq<byte>>, nested: seq<byte>)
    requires ParseTarget(s, detached).Ok?
    ensures var t := ParseTarget(s, detached).value;
      && |t.bodyProtected| <= SIZE_MAX && (t.other.Some? ==> |t.other.value| <= SIZE_MAX)
      && (if embedded.Some? then |t.payload| <= SIZE_MAX && t.payload == embedded.value else detached == Some(t.payload))
      && s == TargetFields(t.tag, n, t.bodyProtected, bucket, embedded, t.other, nested)
      && (t.other.Some? <==> t.tag == 17 || t.tag == 18 || t.tag == 97)
      && t.mapStart <= t.mapEnd <= |s| && bucket == s[t.mapStart..t.mapEnd]
  {
    hide ParseFront, ParseMaps, ParseBack, Located, MapContentStart, EncodeHead, EncodeBstr, Entries;
    TargetParts(s, detached);
    var t := ParseTarget(s, detached).value;
    n := FrontStands(s);
    embedded, nested := BackStands(s, t.mapEnd, t.tag, detached);
    bucket := s[t.mapStart..t.mapEnd];
    assert s == s[..t.mapStart] + bucket + s[t.mapEnd..];
    InRow(s[..t.mapStart], bucket, if embedded.Some? then EncodeBstr(embedded.value) else [0xF6],
          if t.other.Some? then EncodeBstr(t.other.value) else [], nested);
  }

  lemma InRow(a: seq<byte>, b: seq<byte>, c: seq<byte>, d: seq<byte>, e: seq<byte>)
    ensures a + b + (c + d + e) == a + b + c + d + e
  {
  }

  /** A full countersignature is an array of three: protected bucket, unprotected map, signature. */
  lemma CounterShape(c: seq<byte>) returns (j: nat, k: nat)
    requires FullCounter(c).Ok?
    ensures var p := FullCounter(c).value;
      && |p.prot| <= SIZE_MAX && |p.sig| <= SIZE_MAX && j <= k <= |c|
      && c == [0x83] + EncodeBstr(p.prot) + c[j..k] + EncodeBstr(p.sig)
      && UnprotectedHdr(c, j, Labels(p.ps), false) == Ok(p.us, k)
      && ProtectedHdr(p.prot, false).Ok? && ProtectedHdr(p.prot, false).value == p.ps
  {
    hide DecodeHead, DecodeContainer, DecodeString, ProtectedHdr, UnprotectedHdr, EncodeHead, EncodeBstr, Labels;
    var a := DecodeArray(c, 0, false);
    var p := DecodeBstr(c, a.next, false);
    var ps := ProtectedHdr(p.value, false).value;
    var u := UnprotectedHdr(c, p.next, Labels(ps), false);
    ContainerStands(c, 0, ARRAY);
    ThreeIs();
    BstrStands(c, a.next);
    BstrStands(c, u.next);
    j, k := p.next, u.next;
    assert c == c[0..a.next] + c[a.next..j] + c[j..k] + c[k..];
  }

  lemma ThreeIs()
    ensures EncodeHead(ARRAY, 3) == [0x83]
  {
  }

  function Concatenated(cs: seq<seq<byte>>): (b: seq<byte>) {
    if cs == [] then [] else cs[0] + Concatenated(cs[1..])
  }

  lemma {:induction false} ItemsStand(v: seq<byte>, i: nat, n: nat)
    requires CounterItems(v, i, n).Ok? && i <= |v|
    ensures var r := CounterItems(v, i, n);
      && i <= r.next <= |v| && v[i..r.next] == Concatenated(r.value)
      && forall k :: 0 <= k < n ==> FullCounter(r.value[k]).Ok?
    decreases n
  {
    hide SkipItems, FullCounter;
    if n > 0 {
      var j, r := Skip(v, i, false).next, CounterItems(v, i, n);
      var rest := CounterItems(v, j, n - 1);
      ItemsStand(v, j, n - 1);
      assert r.value == [v[i..j]] + rest.value && r.value[1..] == rest.value;
      SliceSplit(v, i, j, r.next);
    }
  }

  /** A value holds one countersignature, or an array of several in a row; each is a whole one. */
  lemma CountersStand(v: seq<byte>)
    requires CounterListInfo(v).Ok?
    ensures var cs := Counters(v);
      && (cs == [v] || (|cs| < U64_BOUND && v == EncodeHead(ARRAY, |cs|) + Concatenated(cs)))
      && forall k :: 0 <= k < |cs| ==> FullCounter(cs[k]).Ok?
  {
    hide DecodeContainer, CounterItems, FullCounter, EncodeHead, PeekType;
    var a := DecodeArray(v, 0, false);
    if CounterListInfo(v).value.isList {
      ContainerStands(v, 0, ARRAY);
      ItemsStand(v, a.next, a.value);
      assert v == v[0..a.next] + v[a.next..];
    }
  }

  // ----- Which bytes are verified -----

  /** The value of an entry. */
  function ValueOf(s: seq<byte>, e: Entry): (v: seq<byte>)
    requires 0 <= e.valueAt <= e.end <= |s|
  {
    s[e.valueAt..e.end]
  }

  /** Entry `k` of the unprotected map is the only one with its label, and its value stands in the
      message. */
  lemma EntryLocated(s: seq<byte>, detached: Option<seq<byte>>, k: nat)
    requires ParseTarget(s, detached).Ok? && |s| <= SIZE_MAX && k < |Entries(s)|
    ensures var e := Entries(s)[k];
      && OnlyEntry(Entries(s), k, e.lbl) && 0 <= e.valueAt <= e.end <= |s|
      && Find(Entries(s), e.lbl) == Some(e)
      && FullValue(s, Range(e.valueAt, e.end)) == ValueOf(s, e)
  {
    hide ParseTarget, Entries, ParseFront, Walk, Find, Labels;
    MapPlace(s, detached);
    var t := ParseTarget(s, detached).value;
    var prot := ParseFront(s).value.labels;
    WalkedMap(s, t.mapStart, Counter, prot);
    WalkLayout(s, t.mapContentStart, t.mapCount, Counter, prot, false, k);
    FindUnique(Entries(s), k);
  }

  /** The algorithm of a countersignature: the one in its unprotected bucket, else the protected one,
      else zero. */
  function AlgorithmOf(c: seq<byte>, p: CounterParts): (alg: i64) {
    var u, q := AlgField(c, p.us, false), AlgField(p.prot, p.ps, false);
    if u.Some? then u.value else if q.Some? then q.value else 0
  }

  /** How a check ends: an algorithm that is not protected must be named by the key, the bytes to check
      must fit scratch, and then the signature decides. */
  function Verdict(algProtected: bool, alg: i64, keyAlg: i64, covered: seq<byte>, sig: seq<byte>, scratchSz: nat,
                   verify: Verifier): (r: Status)
  {
    if !algProtected && (keyAlg == 0 || keyAlg != alg) then Fail(CoseBadAlg)
    else if |covered| > scratchSz then Fail(BufferTooSmall)
    else verify(alg, covered, sig)
  }

  /** What a full countersignature covers: under the older label the other field of the message is left
      out. */
  function Covered(t: Target, sign: seq<byte>, extAad: seq<byte>, older: bool): (b: seq<byte>)
    requires Sized(t) && |sign| <= SIZE_MAX && |extAad| <= SIZE_MAX
  {
    if older || t.other.None? then FullStructure(t.bodyProtected, sign, extAad, t.payload)
    else FullStructureV2(t.bodyProtected, sign, extAad, t.payload, t.other.value)
  }

  function CoveredShort(t: Target, extAad: seq<byte>, older: bool): (b: seq<byte>)
    requires Sized(t) && |extAad| <= SIZE_MAX
  {
    if older || t.other.None? then ShortStructure(t.bodyProtected, extAad, t.payload)
    else ShortStructureV2(t.bodyProtected, extAad, t.payload, t.other.value)
  }

  /** How the countersignature with an index in a value is verified. */
  function Selection(t: Target, v: seq<byte>, index: nat, extAad: seq<byte>, older: bool, scratchSz: nat, keyAlg: i64,
                     verify: Verifier): (r: Status)
    requires Sized(t) && |v| <= SIZE_MAX && |extAad| <= SIZE_MAX
  {
    match CounterListInfo(v)
    case Err(e) => Fail(e)
    case Ok(info, _) =>
      if index >= info.count then Fail(InvalidArg)
      else
        var c := Counters(v)[index];
        match FullCounter(c)
        case Err(e) => Fail(e)
        case Ok(p, _) =>
          CounterSized(c);
          Verdict(IntLabel(1) in Labels(p.ps), AlgorithmOf(c, p), keyAlg, Covered(t, p.prot, extAad, older), p.sig,
                  scratchSz, verify)
  }

  lemma CounterIs(t: Target, c: seq<byte>, extAad: seq<byte>, older: bool, scratchSz: nat, keyAlg: i64, verify: Verifier)
    requires Sized(t) && |c| <= SIZE_MAX && |extAad| <= SIZE_MAX
    ensures match FullCounter(c)
            case Err(e) => VerifyCounter(t, c, older, extAad, scratchSz, keyAlg, verify) == Fail(e)
            case Ok(p, _) =>
              && |p.prot| <= SIZE_MAX
              && VerifyCounter(t, c, older, extAad, scratchSz, keyAlg, verify)
                 == Verdict(IntLabel(1) in Labels(p.ps), AlgorithmOf(c, p), keyAlg, Covered(t, p.prot, extAad, older),
                            p.sig, scratchSz, verify)
  {
    hide FullCounter, CounterStructure, FullStructure, FullStructureV2, AlgField, Labels;
    if FullCounter(c).Ok? {
      CounterSized(c);
      var p := FullCounter(c).value;
      if older || t.other.None? {
        FullIs(t, p.prot, extAad, older);
      } else {
        FullV2Is(t, p.prot, extAad);
      }
    }
  }

  lemma SelectionIs(t: Target, v: seq<byte>, index: nat, extAad: seq<byte>, older: bool, scratchSz: nat, keyAlg: i64,
                    verify: Verifier)
    requires Sized(t) && |v| <= SIZE_MAX && |extAad| <= SIZE_MAX
    ensures VerifySelected(t, v, index, older, extAad, scratchSz, keyAlg, verify)
         == Selection(t, v, index, extAad, older, scratchSz, keyAlg, verify)
  {
    hide CounterListInfo, Counters, FullCounter, VerifyCounter, Verdict, Covered, AlgorithmOf, Labels;
    if CounterListInfo(v).Ok? && index < CounterListInfo(v).value.count {
      CounterIs(t, Counters(v)[index], extAad, older, scratchSz, keyAlg, verify);
    }
  }

  /** A message with a value under label 11: its countersignature with the index is verified, over the
      newer structure when the message has another field. */
  lemma VerifiesLabel11(s: seq<byte>, detached: Option<seq<byte>>, k: nat, index: nat, extAad: seq<byte>, scratchSz: nat,
                        keyAlg: i64, verify: Verifier)
    requires |s| <= SIZE_MAX && DetachedSized(detached) && |extAad| <= SIZE_MAX && ParseTarget(s, detached).Ok?
    requires k < |Entries(s)| && Entries(s)[k].lbl == IntLabel(11)
    ensures var t, e := ParseTarget(s, detached).value, Entries(s)[k];
      && Sized(t) && 0 <= e.valueAt <= e.end <= |s|
      && VerifyFull(s, detached, index, extAad, scratchSz, keyAlg, verify)
         == Selection(t, ValueOf(s, e), index, extAad, false, scratchSz, keyAlg, verify)
  {
    hide ParseTarget, Entries, Find, Labels, Selection, VerifySelected, OnlyEntry, Located, ValueOf;
    TargetSized(s, detached);
    TargetParts(s, detached);
    EntryLocated(s, detached, k);
    LocatedIs(Entries(s), COUNTERSIGNATURE_V2);
    SelectionIs(ParseTarget(s, detached).value, ValueOf(s, Entries(s)[k]), index, extAad, false, scratchSz, keyAlg, verify);
  }

  /** A message with a value under label 7, and none under label 11: its countersignature with the index
      is verified over five items, whatever other field the message has. */
  lemma VerifiesLabel7(s: seq<byte>, detached: Option<seq<byte>>, k: nat, index: nat, extAad: seq<byte>, scratchSz: nat,
                       keyAlg: i64, verify: Verifier)
    requires |s| <= SIZE_MAX && DetachedSized(detached) && |extAad| <= SIZE_MAX && ParseTarget(s, detached).Ok?
    requires k < |Entries(s)| && Entries(s)[k].lbl == IntLabel(7) && IntLabel(11) !in Labels(Entries(s))
    ensures var t, e := ParseTarget(s, detached).value, Entries(s)[k];
      && Sized(t) && 0 <= e.valueAt <= e.end <= |s|
      && VerifyFull(s, detached, index, extAad, scratchSz, keyAlg, verify)
         == Selection(t, ValueOf(s, e), index, extAad, true, scratchSz, keyAlg, verify)
  {
    hide ParseTarget, Entries, Find, Labels, Selection, VerifySelected, OnlyEntry, Located, ValueOf;
    TargetSized(s, detached);
    TargetParts(s, detached);
    EntryLocated(s, detached, k);
    LocatedIs(Entries(s), COUNTERSIGNATURE_V2);
    LocatedIs(Entries(s), COUNTERSIGNATURE_LEGACY);
    SelectionIs(ParseTarget(s, detached).value, ValueOf(s, Entries(s)[k]), index, extAad, true, scratchSz, keyAlg, verify);
  }

  /** A message with neither label has no full countersignature to verify. */
  lemma NothingToVerify(s: seq<byte>, detached: Option<seq<byte>>, index: nat, extAad: seq<byte>, scratchSz: nat,
                        keyAlg: i64, verify: Verifier)
    requires |s| <= SIZE_MAX && DetachedSized(detached) && |extAad| <= SIZE_MAX && ParseTarget(s, detached).Ok?
    ensures IntLabel(11) !in Labels(Entries(s)) && IntLabel(7) !in Labels(Entries(s)) ==>
      VerifyFull(s, detached, index, extAad, scratchSz, keyAlg, verify) == Fail(CoseBadHdr)
    ensures IntLabel(12) !in Labels(Entries(s)) && IntLabel(9) !in Labels(Entries(s)) ==>
      VerifyAbbreviated(s, detached, extAad, scratchSz, keyAlg, verify) == Fail(CoseBadHdr)
  {
    hide ParseTarget, Entries, Labels, VerifySelected, Located, VerifyValue;
    TargetParts(s, detached);
    LocatedIs(Entries(s), COUNTERSIGNATURE_V2);
    LocatedIs(Entries(s), COUNTERSIGNATURE_LEGACY);
    LocatedIs(Entries(s), COUNTERSIGNATURE0_V2);
    LocatedIs(Entries(s), COUNTERSIGNATURE0_LEGACY);
  }

  // ----- The abbreviated form -----

  /** How an abbreviated countersignature is verified: its value is one byte string, the signature. */
  function ShortSelection(t: Target, v: seq<byte>, extAad: seq<byte>, older: bool, scratchSz: nat, alg: i64,
                          verify: Verifier): (r: Status)
    requires Sized(t) && |extAad| <= SIZE_MAX
  {
    match DecodeBstr(v, 0, false)
    case Err(e) => Fail(e)
    case Ok(sig, e) =>
      if e != |v| then Fail(CborMalformed)
      else Verdict(true, alg, alg, CoveredShort(t, extAad, older), sig, scratchSz, verify)
  }

  lemma ShortSelectionIs(t: Target, v: seq<byte>, extAad: seq<byte>, older: bool, scratchSz: nat, alg: i64,
                         verify: Verifier)
    requires Sized(t) && |extAad| <= SIZE_MAX
    ensures VerifyValue(t, v, older, extAad, scratchSz, alg, verify)
         == ShortSelection(t, v, extAad, older, scratchSz, alg, verify)
  {
    hide DecodeBstr, CounterStructure, ShortStructure, ShortStructureV2;
    if older || t.other.None? {
      ShortIs(t, extAad, older);
    } else {
      ShortV2Is(t, extAad);
    }
  }

  /** Under label 12: over the newer structure when the message has another field. */
  lemma VerifiesLabel12(s: seq<byte>, detached: Option<seq<byte>>, k: nat, extAad: seq<byte>, scratchSz: nat, alg: i64,
                        verify: Verifier)
    requires |s| <= SIZE_MAX && DetachedSized(detached) && |extAad| <= SIZE_MAX && ParseTarget(s, detached).Ok?
    requires k < |Entries(s)| && Entries(s)[k].lbl == IntLabel(12)
    ensures var t, e := ParseTarget(s, detached).value, Entries(s)[k];
      && Sized(t) && 0 <= e.valueAt <= e.end <= |s|
      && VerifyAbbreviated(s, detached, extAad, scratchSz, alg, verify)
         == ShortSelection(t, ValueOf(s, e), extAad, false, scratchSz, alg, verify)
  {
    hide ParseTarget, Entries, Find, Labels, ShortSelection, VerifyValue, OnlyEntry, Located, ValueOf;
    TargetSized(s, detached);
    TargetParts(s, detached);
    EntryLocated(s, detached, k);
    LocatedIs(Entries(s), COUNTERSIGNATURE0_V2);
    ShortSelectionIs(ParseTarget(s, detached).value, ValueOf(s, Entries(s)[k]), extAad, false, scratchSz, alg, verify);
  }

  /** Under label 9, when there is none under label 12: over four items. */
  lemma VerifiesLabel9(s: seq<byte>, detached: Option<seq<byte>>, k: nat, extAad: seq<byte>, scratchSz: nat, alg: i64,
                       verify: Verifier)
    requires |s| <= SIZE_MAX && DetachedSized(detached) && |extAad| <= SIZE_MAX && ParseTarget(s, detached).Ok?
    requires k < |Entries(s)| && Entries(s)[k].lbl == IntLabel(9) && IntLabel(12) !in Labels(Entries(s))
    ensures var t, e := ParseTarget(s, detached).value, Entries(s)[k];
      && Sized(t) && 0 <= e.valueAt <= e.end <= |s|
      && VerifyAbbreviated(s, detached, extAad, scratchSz, alg, verify)
         == ShortSelection(t, ValueOf(s, e), extAad, true, scratchSz, alg, verify)
  {
    hide ParseTarget, Entries, Find, Labels, ShortSelection, VerifyValue, OnlyEntry, Located, ValueOf;
    TargetSized(s, detached);
    TargetParts(s, detached);
    EntryLocated(s, detached, k);
    LocatedIs(Entries(s), COUNTERSIGNATURE0_V2);
    LocatedIs(Entries(s), COUNTERSIGNATURE0_LEGACY);
    ShortSelectionIs(ParseTarget(s, detached).value, ValueOf(s, Entries(s)[k]), extAad, true, scratchSz, alg, verify);
  }
}
