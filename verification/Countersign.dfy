/**
 COSE countersignatures (sections 3.1 to 3.3 of RFC 9338) as functions of the bytes:
 parsing a countersigned message, the lists of countersignatures inside it, the
 structure that is signed, and what attaching one more makes of the message.
 */
module Countersign {
  import opened Wire
  import opened Cbor
  import opened CborRoundTrip
  import opened Header
  import opened Recipients

  const TAG_ENCRYPT0: u64 := 16
  const TAG_MAC0: u64 := 17
  const TAG_SIGN1: u64 := 18
  const TAG_ENCRYPT: u64 := 96
  const TAG_MAC: u64 := 97
  const TAG_SIGN: u64 := 98

  /** Where a value lies in the message. */
  datatype Range = Range(start: int, end: int)

  /** A parsed message: the fields that are signed, and where its unprotected map and the
      countersignatures in it lie. */
  datatype Target = Target(
    tag: u64,
    bodyProtected: seq<byte>,
    payload: seq<byte>,
    other: Option<seq<byte>>,
    mapStart: nat,
    mapContentStart: nat,
    mapEnd: nat,
    mapCount: nat,
    full: Option<Range>,
    abbreviated: Option<Range>,
    legacyFull: Option<Range>,
    legacyAbbreviated: Option<Range>)

  // ----- Parsing the message -----

  /** How many fields the message with a tag has. */
  function ExpectedCount(tag: u64): (r: Option<nat>) {
    if tag == TAG_ENCRYPT0 then Some(3)
    else if tag == TAG_MAC0 || tag == TAG_SIGN1 || tag == TAG_SIGN || tag == TAG_ENCRYPT then Some(4)
    else if tag == TAG_MAC then Some(5)
    else None
  }

  predicate HasOther(tag: u64) {
    tag == TAG_SIGN1 || tag == TAG_MAC0 || tag == TAG_MAC
  }

  predicate HasChildren(tag: u64) {
    tag == TAG_SIGN || tag == TAG_ENCRYPT || tag == TAG_MAC
  }

  /** Where the value under a label lies. */
  function Located(es: seq<Entry>, n: i64): (r: Option<Range>)
    ensures r.None? <==> IntLabel(n) !in Labels(es)
  {
    match Find(es, IntLabel(n))
    case None => None
    case Some(e) => Some(Range(e.valueAt, e.end))
  }

  /** What stands before the unprotected map: tag, array head and protected bucket. */
  datatype Front = Front(tag: u64, bodyProtected: seq<byte>, labels: set<Label>)

  function ParseFront(s: seq<byte>): (r: Dec<Front>)
    ensures r.Ok? ==> 0 < r.next <= |s|
    ensures r.Ok? ==> ExpectedCount(r.value.tag).Some?
  {
    if PeekType(s, 0) != TAG then Err(CoseBadTag)
    else
      var (tag, i) :- DecodeTag(s, 0, false);
      if ExpectedCount(tag).None? then Err(CoseBadTag)
      else
        var (n, j) :- DecodeArray(s, i, false);
        if n != ExpectedCount(tag).value then Err(CborMalformed)
        else
          var (prot, k) :- DecodeBstr(s, j, false);
          var (ps, _) :- ProtectedHdr(prot, false);
          if HasCounterLabel(Labels(ps)) then Err(CoseBadHdr)
          else Ok(Front(tag, prot, Labels(ps)), k)
  }

  /** The unprotected map, walked once to locate countersignatures and once as a header. */
  function ParseMaps(s: seq<byte>, i: nat, prot: set<Label>): (r: Dec<seq<Entry>>)
    ensures r.Ok? ==> i < MapContentStart(s, i) <= r.next <= |s| && |r.value| <= MAX_MAP_ITEMS
  {
    var (es, e) :- WalkMap(s, i, Counter, prot, false);
    var (_, e') :- UnprotectedHdr(s, i, prot, false);
    if e' != e then Err(CborMalformed) else Ok(es, e)
  }

  /** The payload: a byte string, or null and then the detached one. */
  function Payload(s: seq<byte>, i: nat, detached: Option<seq<byte>>): (r: Dec<seq<byte>>)
    ensures r.Ok? ==> i < r.next <= |s|
  {
    if i < |s| && s[i] == NULL_BYTE then
      if detached.None? then Err(DetachedPayload) else Ok(detached.value, i + 1)
    else DecodeBstr(s, i, false)
  }

  /** `n` signatures of a COSE_Sign, or recipients of the other two. */
  function Children(s: seq<byte>, i: nat, n: nat, tag: u64): (r: Dec<()>)
    ensures r.Ok? ==> i + n <= r.next && (n > 0 ==> r.next <= |s|)
    decreases n
  {
    if n == 0 then Ok((), i)
    else
      var (_, j) :- Child(s, i, tag);
      Children(s, j, n - 1, tag)
  }

  function Child(s: seq<byte>, i: nat, tag: u64): (r: Dec<()>)
    ensures r.Ok? ==> i < r.next <= |s|
  {
    if tag == TAG_SIGN then SkippedSignature(s, i)
    else
      var (_, j) :- SkippedRecipient(s, i);
      Ok((), j)
  }

  /** What follows the unprotected map, to the end of the message: the payload and the
      byte string after it, when the message has one. */
  function ParseBack(s: seq<byte>, i: nat, tag: u64, detached: Option<seq<byte>>): (r: Dec<(seq<byte>, Option<seq<byte>>)>)
    ensures r.Ok? ==> r.next == |s|
  {
    var (payload, j) :- Payload(s, i, detached);
    var (other, k) :- if HasOther(tag) then ParseOther(s, j) else Ok(None, j);
    var (_, e) :- if HasChildren(tag) then ParseChildren(s, k, tag) else Ok((), k);
    if e != |s| then Err(CborMalformed) else Ok((payload, other), e)
  }

  function ParseOther(s: seq<byte>, i: nat): (r: Dec<Option<seq<byte>>>)
    ensures r.Ok? ==> i < r.next <= |s|
  {
    var (data, j) :- DecodeBstr(s, i, false);
    Ok(Some(data), j)
  }

  function ParseChildren(s: seq<byte>, i: nat, tag: u64): (r: Dec<()>)
    ensures r.Ok? ==> i < r.next <= |s|
  {
    var (n, j) :- DecodeArray(s, i, false);
    if n == 0 then Err(CborMalformed) else Children(s, j, n, tag)
  }

  function TargetOf(s: seq<byte>, f: Front, i: nat, es: seq<Entry>, e: nat, payload: seq<byte>, other: Option<seq<byte>>)
    : Target
  {
    Target(f.tag, f.bodyProtected, payload, other,
           i, MapContentStart(s, i), e, |es|,
           Located(es, COUNTERSIGNATURE_V2), Located(es, COUNTERSIGNATURE0_V2),
           Located(es, COUNTERSIGNATURE_LEGACY), Located(es, COUNTERSIGNATURE0_LEGACY))
  }

  function MapContentStart(s: seq<byte>, i: nat): nat {
    match DecodeMap(s, i, false) { case Ok(_, j) => j case Err(_) => i }
  }

  function ParseTarget(s: seq<byte>, detached: Option<seq<byte>>): (r: Dec<Target>)
    ensures r.Ok? ==> r.next == |s|
    ensures r.Ok? ==> r.value.mapStart < r.value.mapContentStart <= r.value.mapEnd <= |s|
  {
    var (f, i) :- ParseFront(s);
    var (es, e) :- ParseMaps(s, i, f.labels);
    var (back, l) :- ParseBack(s, e, f.tag, detached);
    Ok(TargetOf(s, f, i, es, e, back.0, back.1), l)
  }

  // ----- Countersignatures inside a message -----

  /** A full countersignature: its protected bucket, the entries of both buckets, and
      the signature. */
  datatype CounterParts = CounterParts(prot: seq<byte>, ps: seq<Entry>, us: seq<Entry>, sig: seq<byte>)

  function FullCounter(c: seq<byte>): (r: Dec<CounterParts>)
    ensures r.Ok? ==> r.next == |c|
  {
    var (n, i) :- DecodeArray(c, 0, false);
    if n != 3 then Err(CborMalformed)
    else
      var (prot, j) :- DecodeBstr(c, i, false);
      var (ps, _) :- ProtectedHdr(prot, false);
      var (us, k) :- UnprotectedHdr(c, j, Labels(ps), false);
      var (sig, e) :- DecodeBstr(c, k, false);
      if e != |c| then Err(CborMalformed) else Ok(CounterParts(prot, ps, us, sig), e)
  }

  /** `n` full countersignatures in a row, each one a whole item: their bytes. */
  function CounterItems(v: seq<byte>, i: nat, n: nat): (r: Dec<seq<seq<byte>>>)
    ensures r.Ok? ==> |r.value| == n && i + n <= r.next && (n > 0 ==> r.next <= |v|)
    ensures r.Ok? ==> forall k :: 0 <= k < n ==> |r.value[k]| <= |v|
    decreases n
  {
    if n == 0 then Ok([], i)
    else
      var (_, j) :- Skip(v, i, false);
      var (_, _) :- FullCounter(v[i..j]);
      var (cs, e) :- CounterItems(v, j, n - 1);
      Ok([v[i..j]] + cs, e)
  }

  /** How many countersignatures a value holds, where they start, and whether it is a list. */
  datatype ListInfo = ListInfo(count: nat, contentOffset: nat, isList: bool)

  function CounterListInfo(v: seq<byte>): (r: Dec<ListInfo>)
    ensures r.Ok? ==> r.value.count > 0 && r.value.count <= MAX_MAP_ITEMS && r.value.contentOffset <= |v|
  {
    var (n, i) :- DecodeArray(v, 0, false);
    if n == 0 || i >= |v| then Err(CborMalformed)
    else if PeekType(v, i) == BSTR then
      var (_, _) :- FullCounter(v);
      Ok(ListInfo(1, 0, false), |v|)
    else if PeekType(v, i) == ARRAY then
      if n > MAX_MAP_ITEMS then Err(CborMalformed)
      else
        var (_, e) :- CounterItems(v, i, n);
        if e != |v| then Err(CborMalformed) else Ok(ListInfo(n, i, true), e)
    else Err(CborMalformed)
  }

  /** All countersignatures of a value. */
  function Counters(v: seq<byte>): (r: seq<seq<byte>>)
    requires CounterListInfo(v).Ok?
    ensures |r| == CounterListInfo(v).value.count
    ensures forall k :: 0 <= k < |r| ==> |r[k]| <= |v|
  {
    var info := CounterListInfo(v).value;
    if info.isList then CounterItems(v, info.contentOffset, info.count).value else [v]
  }

  /** The countersignature with an index. */
  function SelectFullCounter(v: seq<byte>, k: nat): (r: Dec<seq<byte>>)
    ensures r.Ok? ==> |r.value| <= |v|
  {
    var (info, e) :- CounterListInfo(v);
    if k >= info.count then Err(InvalidArg) else Ok(Counters(v)[k], e)
  }

  // ----- What is signed -----

  const CONTEXT_COUNTER := AsciiBytes("CounterSignature")
  const CONTEXT_COUNTER0 := AsciiBytes("CounterSignature0")
  const CONTEXT_COUNTER_V2 := AsciiBytes("CounterSignatureV2")
  const CONTEXT_COUNTER0_V2 := AsciiBytes("CounterSignature0V2")

  function AsciiBytes(t: string): (b: seq<byte>)
    ensures |b| == |t| && forall k :: 0 <= k < |b| ==> b[k] < 128
  {
    seq(|t|, i requires 0 <= i < |t| => if t[i] < 128 as char then t[i] as int else 0)
  }

  /** The context string of a countersignature structure. */
  function CounterContext(hasOther: bool, abbreviated: bool, legacy: bool): (c: seq<byte>) {
    if legacy || !hasOther then (if abbreviated then CONTEXT_COUNTER0 else CONTEXT_COUNTER)
    else (if abbreviated then CONTEXT_COUNTER0_V2 else CONTEXT_COUNTER_V2)
  }

  /** The Countersign_structure: `signProtected` is there unless it is abbreviated. */
  function CounterStructure(t: Target, signProtected: Option<seq<byte>>, extAad: seq<byte>, legacy: bool): (b: seq<byte>)
    requires |t.bodyProtected| <= SIZE_MAX && |t.payload| <= SIZE_MAX && |extAad| <= SIZE_MAX
    requires signProtected.Some? ==> |signProtected.value| <= SIZE_MAX
    requires t.other.Some? ==> |t.other.value| <= SIZE_MAX
  {
    var v2 := !legacy && t.other.Some?;
    EncodeHead(ARRAY, 4 + (if signProtected.Some? then 1 else 0) + (if v2 then 1 else 0))
    + EncodeTstr(CounterContext(t.other.Some?, signProtected.None?, legacy))
    + EncodeBstr(t.bodyProtected)
    + (if signProtected.Some? then EncodeBstr(signProtected.value) else [])
    + EncodeBstr(extAad)
    + EncodeBstr(t.payload)
    + (if v2 then EncodeHead(ARRAY, 1) + EncodeBstr(t.other.value) else [])
  }

  // ----- What attaching writes -----

  /** A full countersignature as it is written. */
  function FullCounterBytes(prot: seq<byte>, kid: seq<byte>, sig: seq<byte>): (b: seq<byte>)
    requires |prot| <= SIZE_MAX && |kid| <= SIZE_MAX && |sig| <= SIZE_MAX
  {
    EncodeHead(ARRAY, 3) + EncodeBstr(prot) + KidMap(kid) + EncodeBstr(sig)
  }

  function KidMap(kid: seq<byte>): (b: seq<byte>)
    requires |kid| <= SIZE_MAX
  {
    if kid == [] then EncodeHead(MAP, 0) else EncodeHead(MAP, 1) + EncodeInt(KID) + EncodeBstr(kid)
  }

  /** The protected bucket `{1: alg}`. */
  function AlgHeader(alg: i64): (b: seq<byte>)
    ensures |b| <= 11
  {
    EncodeHead(MAP, 1) + EncodeHead(UINT, ALG) + EncodeInt(alg)
  }

  /** The value under label 11 with one more countersignature: a list that grows, or a
      single one that becomes a list of two. */
  function GrownValue(v: seq<byte>, info: ListInfo, ctr: seq<byte>): (b: seq<byte>)
    requires info.contentOffset <= |v| && info.count < MAX_MAP_ITEMS
  {
    if info.isList then SmallHead(ARRAY, info.count + 1) + v[info.contentOffset..] + ctr
    else SmallHead(ARRAY, 2) + v + ctr
  }

  /** A head with a count that a buffer can hold. */
  function SmallHead(major: Major, n: nat): (b: seq<byte>) {
    if n < U64_BOUND then EncodeHead(major, n) else []
  }

  /** The message with `ctr` as the last countersignature of the value at `r`. */
  function WithGrownValue(s: seq<byte>, r: Range, ctr: seq<byte>): (b: seq<byte>)
    requires 0 <= r.start <= r.end <= |s| && CounterListInfo(s[r.start..r.end]).Ok?
    requires CounterListInfo(s[r.start..r.end]).value.count < MAX_MAP_ITEMS
  {
    var v := s[r.start..r.end];
    s[..r.start] + GrownValue(v, CounterListInfo(v).value, ctr) + s[r.end..]
  }

  /** The message with one more entry at the end of its unprotected map. */
  function WithEntry(s: seq<byte>, t: Target, lbl: i64, value: seq<byte>): (b: seq<byte>)
    requires t.mapStart <= t.mapContentStart <= t.mapEnd <= |s|
  {
    s[..t.mapStart] + SmallHead(MAP, t.mapCount + 1) + s[t.mapContentStart..t.mapEnd]
    + EncodeInt(lbl) + value + s[t.mapEnd..]
  }
}
