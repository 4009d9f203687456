/**
 Countersigned messages as the library reads them: loops over a decoding context that
 record offsets in a target record, proved against the functions of Countersign.dfy.
 */
module CountersignContext {
  import opened Wire
  import opened Cbor
  import opened CborContext
  import opened Header
  import opened HeaderLemmas
  import opened HeaderState
  import opened HeaderContext
  import opened HeaderDecoders
  import opened Recipients
  import opened RecipientContext
  import opened Countersign
  import opened CountersignLemmas
  import opened CountersignLists

  /** The record a parsed message is kept in. */
  class CounterTarget {
    var tag: u64
    var bodyProtected: seq<byte>
    var payload: seq<byte>
    var other: Option<seq<byte>>
    var mapStart: nat
    var mapContentStart: nat
    var mapEnd: nat
    var mapCount: nat
    var full: Option<Range>
    var abbreviated: Option<Range>
    var legacyFull: Option<Range>
    var legacyAbbreviated: Option<Range>

    function View(): Target
      reads this
    {
      Target(tag, bodyProtected, payload, other, mapStart, mapContentStart, mapEnd, mapCount,
             full, abbreviated, legacyFull, legacyAbbreviated)
    }

    /** A record set to zero. */
    constructor ()
      ensures full.None? && abbreviated.None? && legacyFull.None? && legacyAbbreviated.None? && other.None?
    {
      tag := 0;
      bodyProtected, payload, other := [], [], None;
      mapStart, mapContentStart, mapEnd, mapCount := 0, 0, 0, 0;
      full, abbreviated, legacyFull, legacyAbbreviated := None, None, None, None;
    }

    /** The record has the countersignatures of the entries `es`, and no others. */
    ghost predicate Locates(es: seq<Entry>)
      reads this`full, this`abbreviated, this`legacyFull, this`legacyAbbreviated
    {
      && full == Located(es, COUNTERSIGNATURE_V2) && abbreviated == Located(es, COUNTERSIGNATURE0_V2)
      && legacyFull == Located(es, COUNTERSIGNATURE_LEGACY)
      && legacyAbbreviated == Located(es, COUNTERSIGNATURE0_LEGACY)
    }

    /** A record that located nothing. */
    lemma LocatesNone()
      requires full.None? && abbreviated.None? && legacyFull.None? && legacyAbbreviated.None?
      ensures Locates([])
    {
      LocatedNone(COUNTERSIGNATURE_V2);
      LocatedNone(COUNTERSIGNATURE0_V2);
      LocatedNone(COUNTERSIGNATURE_LEGACY);
      LocatedNone(COUNTERSIGNATURE0_LEGACY);
    }

    /** The record of the parts of a message. */
    lemma ViewIs(s: seq<byte>, f: Front, i: nat, es: seq<Entry>, e: nat)
      requires tag == f.tag && bodyProtected == f.bodyProtected && mapStart == i && mapContentStart == MapContentStart(s, i)
      requires mapEnd == e && mapCount == |es| && Locates(es)
      ensures View() == TargetOf(s, f, i, es, e, payload, other)
    {
      hide Located, MapContentStart;
    }
  }

  // ----- The unprotected map -----

  lemma LocatedNext(es: seq<Entry>, e: Entry, n: i64)
    ensures Located(es + [e], n) == if e.lbl == IntLabel(n) then Some(Range(e.valueAt, e.end)) else Located(es, n)
    ensures IntLabel(n) !in Labels(es) ==> Located(es, n).None?
  {
    hide Find, Labels;
    FindLast(es, e, IntLabel(n));
  }

  lemma LocatedNone(n: i64)
    ensures Located([], n).None?
  {
    NoLabels();
    hide Labels, Find;
  }

  /** What the loop over the map knows after `k` entries `es`. */
  ghost predicate MapSoFar(ctx: Decoder, target: CounterTarget, labels: HdrState, start: nat, k: nat, seen: set<Label>,
                           es: seq<Entry>)
    reads ctx, target, labels
  {
    && Walk(ctx.cbuf, start, k, Counter, seen, false) == Ok(es, ctx.idx)
    && target.Locates(es)
    && labels.Valid() && labels.labels == Labels(es)
    && |labels.extraIntegerLabels| <= k && |labels.extraTextLabels| <= k
  }

  /** What a new entry locates; with a new label, nothing was located under it before. */
  lemma LocatedNextAll(es: seq<Entry>, e: Entry)
    requires e.lbl !in Labels(es)
    ensures forall n: i64 {:trigger Located(es + [e], n)} ::
      Located(es + [e], n) == if e.lbl == IntLabel(n) then Some(Range(e.valueAt, e.end)) else Located(es, n)
    ensures forall n: i64 {:trigger Located(es, n)} :: e.lbl == IntLabel(n) ==> Located(es, n).None?
  {
    hide Labels, Located;
    forall n: i64
      ensures Located(es + [e], n) == if e.lbl == IntLabel(n) then Some(Range(e.valueAt, e.end)) else Located(es, n)
      ensures e.lbl == IntLabel(n) ==> Located(es, n).None?
    {
      LocatedNext(es, e, n);
    }
  }

  /** The value of one entry: skipped, checked for the type its label asks for, located. */
  method ParseCounterValue(ctx: Decoder, target: CounterTarget, lbl: Label, ghost es: seq<Entry>, ghost at: int)
    returns (ret: Status)
    requires lbl !in Labels(es) && target.Locates(es)
    modifies ctx, target`full, target`abbreviated, target`legacyFull, target`legacyAbbreviated
    ensures ret == Value(ctx.cbuf, old(ctx.idx), Counter, lbl, false).Status()
    ensures ret.Success? ==>
      && ctx.idx == Value(ctx.cbuf, old(ctx.idx), Counter, lbl, false).next
      && target.Locates(es + [Entry(lbl, at, old(ctx.idx), ctx.idx)])
  {
    hide SkipItems, Labels, Located, PeekType;
    var valueStart := ctx.idx;
    var valueType := ctx.PeekType();
    var value;
    ret, value := ctx.SkipItem();
    LocatedNextAll(es, Entry(lbl, at, valueStart, ctx.idx));
    if ret.Success? && lbl == IntLabel(COUNTERSIGNATURE_V2) {
      if target.full.Some? || valueType != ARRAY {
        ret := Fail(CborMalformed);
      } else {
        target.full := Some(Range(valueStart, ctx.idx));
      }
    } else if ret.Success? && lbl == IntLabel(COUNTERSIGNATURE0_V2) {
      if target.abbreviated.Some? || valueType != BSTR {
        ret := Fail(CborMalformed);
      } else {
        target.abbreviated := Some(Range(valueStart, ctx.idx));
      }
    } else if ret.Success? && lbl == IntLabel(COUNTERSIGNATURE_LEGACY) {
      if target.legacyFull.Some? || valueType != ARRAY {
        ret := Fail(CborMalformed);
      } else {
        target.legacyFull := Some(Range(valueStart, ctx.idx));
      }
    } else if ret.Success? && lbl == IntLabel(COUNTERSIGNATURE0_LEGACY) {
      if target.legacyAbbreviated.Some? || valueType != BSTR {
        ret := Fail(CborMalformed);
      } else {
        target.legacyAbbreviated := Some(Range(valueStart, ctx.idx));
      }
    }
  }

  /** One entry of the map. */
  method ParseCounterEntry(ctx: Decoder, target: CounterTarget, mapState: HdrState, hdrState: HdrState,
                           ghost start: nat, ghost k: nat, ghost n: nat, ghost es: seq<Entry>)
    returns (ret: Status, ghost es': seq<Entry>)
    requires |ctx.cbuf| <= SIZE_MAX && k < n <= MAX_MAP_ITEMS && hdrState.Valid() && hdrState != mapState
    requires MapSoFar(ctx, target, mapState, start, k, hdrState.labels, es)
    modifies ctx, mapState, target`full, target`abbreviated, target`legacyFull, target`legacyAbbreviated
    ensures mapState.Valid()
    ensures ret.Fail? ==> Walk(ctx.cbuf, start, n, Counter, hdrState.labels, false) == Err(ret.error)
    ensures ret.Success? ==> MapSoFar(ctx, target, mapState, start, k + 1, hdrState.labels, es')
  {
    hide Walk, Labels, Value, DecodeLabel, DecodeTstr, EncodedText, InBits, HdrState.Valid, CounterTarget.Locates;
    es' := es;
    WalkNext(ctx.cbuf, start, k, n, Counter, hdrState.labels, false);
    ghost var at := ctx.idx;
    var encodedLabel := if ctx.idx < |ctx.cbuf| then ctx.cbuf[ctx.idx..] else [];
    var lbl;
    ret, lbl := ctx.DecodeLabel(false);
    if ret.Success? {
      if lbl.TextLabel? {
        EncodedLabel(ctx.cbuf, at, false);
      }
      if lbl == IntLabel(CRIT) {
        ret := Fail(CoseBadHdr);
      } else {
        var here := mapState.ContainsLabel(lbl);
        var there := hdrState.ContainsLabel(lbl);
        if here || there {
          ret := Fail(CborMalformed);
        } else {
          ret := mapState.AddLabel(lbl, encodedLabel);
        }
      }
    }
    if ret.Success? {
      ghost var valueAt := ctx.idx;
      ret := ParseCounterValue(ctx, target, lbl, es, at);
      if ret.Success? {
        ghost var e := Entry(lbl, at, valueAt, ctx.idx);
        LabelsLast(es, e);
        es' := es + [e];
      }
    }
  }

  /** `wolfCose_ParseCounterMap`: locates the countersignatures of the unprotected map. */
  method ParseCounterMap(ctx: Decoder, target: CounterTarget, hdrState: HdrState) returns (ret: Status)
    requires |ctx.cbuf| <= SIZE_MAX && hdrState.Valid() && target.Locates([])
    modifies ctx, target`mapStart, target`mapContentStart, target`mapEnd, target`mapCount,
             target`full, target`abbreviated, target`legacyFull, target`legacyAbbreviated
    ensures var r := WalkMap(ctx.cbuf, old(ctx.idx), Counter, hdrState.labels, false);
      && ret == r.Status()
      && (ret.Success? ==>
            && ctx.idx == target.mapEnd == r.next && target.mapStart == old(ctx.idx)
            && target.mapContentStart == MapContentStart(ctx.cbuf, old(ctx.idx))
            && target.mapCount == |r.value| && target.Locates(r.value))
  {
    hide Walk, Labels, DecodeContainer, HdrState.Valid, Located;
    var mapState := new HdrState();
    target.mapStart := ctx.idx;
    var count;
    ret, count := ctx.DecodeMap(false);
    if ret.Success? && count > MAX_MAP_ITEMS {
      ret := Fail(CborMalformed);
      count := 0;
    }
    target.mapCount := count;
    target.mapContentStart := ctx.idx;
    if ret.Fail? {
      return;
    }
    ghost var start, es, prot := ctx.idx, [], hdrState.labels;
    WalkNone(ctx.cbuf, start, Counter, prot, false);
    var i := 0;
    while ret.Success? && i < count
      invariant 0 <= i && (ret.Success? ==> i <= count)
      invariant mapState.Valid() && hdrState.Valid() && fresh(mapState)
      invariant target.mapStart == old(ctx.idx) && target.mapContentStart == start && target.mapCount == count
      invariant ret.Fail? ==> Walk(ctx.cbuf, start, count, Counter, prot, false) == Err(ret.error)
      invariant ret.Success? ==> MapSoFar(ctx, target, mapState, start, i, prot, es)
      decreases ret.Success?, count - i
    {
      ret, es := ParseCounterEntry(ctx, target, mapState, hdrState, start, i, count, es);
      i := i + 1;
    }
    if ret.Success? {
      target.mapEnd := ctx.idx;
      WalkLength(ctx.cbuf, start, count, Counter, prot, false);
    }
  }

  // ----- The message -----

  /** After a protected bucket was decoded into a blank record, the record has an IV, or a
      partial one, exactly when the bucket has its label. */
  lemma IvOfProtected(data: seq<byte>)
    requires ProtectedHdr(data, false).Ok?
    ensures var es := ProtectedHdr(data, false).value; var f := FieldsAfter(data, es, Protected, BLANK, false);
      && (f.iv.Some? <==> IntLabel(IV) in Labels(es))
      && (f.partialIv.Some? <==> IntLabel(PARTIAL_IV) in Labels(es))
  {
    hide Walk, BstrField, AlgField, ContentTypeField, Labels, CritField, DecodeContainer;
    var es := ProtectedHdr(data, false).value;
    if data == [] {
      FieldsNone(data, Protected, BLANK, false);
    } else {
      var n, j := DecodeMap(data, 0, false).value, DecodeMap(data, 0, false).next;
      BstrPresent(data, j, n, Protected, {}, false, IV);
      BstrPresent(data, j, n, Protected, {}, false, PARTIAL_IV);
    }
  }

  /** Tag, array head and protected bucket. */
  method ParseFrontFields(ctx: Decoder, target: CounterTarget, hdr: Hdr, hdrState: HdrState) returns (ret: Status)
    requires |ctx.cbuf| <= SIZE_MAX && ctx.idx == 0 && hdr.View() == BLANK
    modifies ctx, target`tag, target`bodyProtected, hdr, hdrState
    ensures hdrState.Valid()
    ensures var r := ParseFront(ctx.cbuf);
      && ret == r.Status()
      && (ret.Success? ==>
            && ctx.idx == r.next && target.tag == r.value.tag && target.bodyProtected == r.value.bodyProtected
            && hdrState.labels == r.value.labels
            && (hdr.iv.Some? <==> IntLabel(IV) in hdrState.labels)
            && (hdr.partialIv.Some? <==> IntLabel(PARTIAL_IV) in hdrState.labels))
  {
    hide DecodeHead, ProtectedHdr, FieldsAfter, Labels, HdrState.Valid, DecodeContainer, DecodeString;
    hdrState.Init();
    if ctx.idx >= |ctx.cbuf| || ctx.PeekType() != TAG {
      return Fail(CoseBadTag);
    }
    var tag;
    ret, tag := ctx.DecodeTag(false);
    if ret.Fail? {
      return;
    }
    target.tag := tag;
    var expectedCount := 0;
    if tag == TAG_ENCRYPT0 {
      expectedCount := 3;
    } else if tag == TAG_MAC0 || tag == TAG_SIGN1 || tag == TAG_SIGN || tag == TAG_ENCRYPT {
      expectedCount := 4;
    } else if tag == TAG_MAC {
      expectedCount := 5;
    } else {
      return Fail(CoseBadTag);
    }
    var arrayCount;
    ret, arrayCount := ctx.DecodeArray(false);
    if ret.Fail? {
      return;
    }
    if arrayCount != expectedCount {
      return Fail(CborMalformed);
    }
    ghost var at := ctx.idx;
    var prot;
    ret, prot := ctx.DecodeBstr(false);
    if ret.Fail? {
      return;
    }
    target.bodyProtected := prot;
    BstrSized(ctx.cbuf, at);
    ret := DecodeProtectedHdr(prot, hdr, hdrState, false);
    if ret.Success? {
      IvOfProtected(prot);
      var countersigned := SawCounterLabel(hdrState);
      if countersigned {
        ret := Fail(CoseBadHdr);
      }
    }
  }

  /** The signatures or recipients of a message, each one skipped. */
  method ParseChildFields(ctx: Decoder, tag: u64) returns (ret: Status)
    modifies ctx
    ensures var r := ParseChildren(ctx.cbuf, old(ctx.idx), tag);
      ret == r.Status() && (ret.Success? ==> ctx.idx == r.next)
  {
    hide SkippedSignature, SkippedRecipient, DecodeContainer, Children;
    var childCount;
    ret, childCount := ctx.DecodeArray(false);
    if ret.Success? && childCount == 0 {
      ret := Fail(CborMalformed);
    }
    if ret.Fail? {
      return;
    }
    ghost var start := ctx.idx;
    ghost var goal := Children(ctx.cbuf, start, childCount, tag);
    var i: int := 0;
    while ret.Success? && i < childCount
      invariant 0 <= i && (ret.Success? ==> i <= childCount)
      invariant ret.Fail? ==> goal == Err(ret.error)
      invariant ret.Success? ==> goal == Children(ctx.cbuf, ctx.idx, childCount - i, tag)
      decreases ret.Success?, childCount - i
    {
      ChildrenStep(ctx.cbuf, ctx.idx, childCount - i, tag);
      if tag == TAG_SIGN {
        ret := DecodeSkippedSignature(ctx);
      } else {
        var recipientAlg;
        ret, recipientAlg := DecodeSkippedRecipient(ctx);
      }
      i := i + 1;
    }
    if ret.Success? {
      ChildrenNone(ctx.cbuf, ctx.idx, tag);
    }
  }

  /** The payload and what follows it, to the end of the message. */
  method ParseBackFields(ctx: Decoder, target: CounterTarget, detached: Option<seq<byte>>) returns (ret: Status)
    requires target.other.None?
    modifies ctx, target`payload, target`other
    ensures var r := ParseBack(ctx.cbuf, old(ctx.idx), target.tag, detached);
      && ret == r.Status()
      && (ret.Success? ==> target.payload == r.value.0 && target.other == r.value.1)
  {
    hide DecodeString, ParseChildren;
    if ctx.idx < |ctx.cbuf| && ctx.cbuf[ctx.idx] == NULL_BYTE {
      ctx.idx := ctx.idx + 1;
      if detached.None? {
        return Fail(DetachedPayload);
      }
      target.payload := detached.value;
    } else {
      var payload;
      ret, payload := ctx.DecodeBstr(false);
      if ret.Fail? {
        return;
      }
      target.payload := payload;
    }
    if target.tag == TAG_SIGN1 || target.tag == TAG_MAC0 || target.tag == TAG_MAC {
      var other;
      ret, other := ctx.DecodeBstr(false);
      if ret.Fail? {
        return;
      }
      target.other := Some(other);
    }
    if target.tag == TAG_SIGN || target.tag == TAG_ENCRYPT || target.tag == TAG_MAC {
      ret := ParseChildFields(ctx, target.tag);
      if ret.Fail? {
        return;
      }
    }
    if ctx.idx != |ctx.cbuf| {
      return Fail(CborMalformed);
    }
    return Success;
  }

  /** The unprotected map: located once, then decoded as a header from its start. */
  method ParseMapFields(ctx: Decoder, target: CounterTarget, hdr: Hdr, hdrState: HdrState) returns (ret: Status)
    requires |ctx.cbuf| <= SIZE_MAX && hdrState.Valid() && target.Locates([])
    requires hdr.iv.Some? <==> IntLabel(IV) in hdrState.labels
    requires hdr.partialIv.Some? <==> IntLabel(PARTIAL_IV) in hdrState.labels
    modifies ctx, hdr, hdrState, target`mapStart, target`mapContentStart, target`mapEnd, target`mapCount,
             target`full, target`abbreviated, target`legacyFull, target`legacyAbbreviated
    ensures var r := ParseMaps(ctx.cbuf, old(ctx.idx), old(hdrState.labels));
      && ret == r.Status()
      && (ret.Success? ==>
            && ctx.idx == target.mapEnd == r.next && target.mapStart == old(ctx.idx)
            && target.mapContentStart == MapContentStart(ctx.cbuf, old(ctx.idx))
            && target.mapCount == |r.value| && target.Locates(r.value))
  {
    hide WalkMap, UnprotectedHdr, Labels, DecodeContainer, HdrState.Valid, CounterTarget.Locates, MapContentStart,
         FieldsAfter;
    ret := ParseCounterMap(ctx, target, hdrState);
    if ret.Success? {
      ctx.idx := target.mapStart;
      ret := DecodeUnprotectedHdr(ctx, hdr, hdrState, false);
    }
    if ret.Success? && ctx.idx != target.mapEnd {
      ret := Fail(CborMalformed);
    }
  }

  /** `wolfCose_ParseCounterTarget`. */
  method ParseCounterTarget(input: seq<byte>, detached: Option<seq<byte>>)
    returns (ret: Status, target: CounterTarget)
    requires |input| <= SIZE_MAX
    ensures fresh(target)
    ensures ret == ParseTarget(input, detached).Status()
    ensures ret.Success? ==> target.View() == ParseTarget(input, detached).value
  {
    hide ParseFront, ParseMaps, ParseBack, Labels, HdrState.Valid, MapContentStart, FieldsAfter, CounterTarget.Locates,
         CounterTarget.View, TargetOf;
    target := new CounterTarget();
    var hdr := new Hdr();
    var hdrState := new HdrState();
    var ctx := new Decoder(input);
    target.LocatesNone();
    ghost var front := ParseFront(input);
    ret := ParseFrontFields(ctx, target, hdr, hdrState);
    if ret.Success? {
      ghost var i, maps := ctx.idx, ParseMaps(input, ctx.idx, hdrState.labels);
      ret := ParseMapFields(ctx, target, hdr, hdrState);
      if ret.Success? {
        ghost var e := ctx.idx;
        ret := ParseBackFields(ctx, target, detached);
        target.ViewIs(input, front.value, i, maps.value, e);
      }
    }
  }

  // ----- Countersignatures -----

  /** `wolfCose_ValidateFullCounter`. */
  method ValidateFullCounter(input: seq<byte>) returns (ret: Status)
    requires |input| <= SIZE_MAX
    ensures ret == FullCounter(input).Status()
  {
    var parts;
    ret, parts := DecodeFullCounter(input);
  }

  /** `wolfCose_DecodeFullCounter`: also the parts that verification needs. */
  method DecodeFullCounter(input: seq<byte>) returns (ret: Status, parts: DecodedCounter)
    requires |input| <= SIZE_MAX
    ensures ret == FullCounter(input).Status()
    ensures ret.Success? ==>
      var p := FullCounter(input).value;
      && parts.prot == p.prot && parts.sig == p.sig
      && (parts.algProtected <==> IntLabel(ALG) in Labels(p.ps))
      && parts.hdr == FieldsAfter(input, p.us, Unprotected, FieldsAfter(p.prot, p.ps, Protected, BLANK, false), false)
  {
    hide ProtectedHdr, UnprotectedHdr, DecodeString, DecodeContainer, Labels, HdrState.Valid, FieldsAfter;
    parts := DecodedCounter([], [], BLANK, false);
    var hdr := new Hdr();
    var hdrState := new HdrState();
    var ctx := new Decoder(input);
    var count;
    ret, count := ctx.DecodeArray(false);
    if ret.Fail? {
      return;
    }
    if count != 3 {
      return Fail(CborMalformed), parts;
    }
    ghost var at := ctx.idx;
    var prot;
    ret, prot := ctx.DecodeBstr(false);
    if ret.Fail? {
      return;
    }
    BstrSized(input, at);
    ret := DecodeProtectedHdr(prot, hdr, hdrState, false);
    if ret.Fail? {
      return;
    }
    IvOfProtected(prot);
    var algProtected := hdrState.Contains(ALG);
    ret := DecodeUnprotectedHdr(ctx, hdr, hdrState, false);
    if ret.Fail? {
      return;
    }
    var sig;
    ret, sig := ctx.DecodeBstr(false);
    if ret.Fail? {
      return;
    }
    if ctx.idx != |input| {
      return Fail(CborMalformed), parts;
    }
    parts := DecodedCounter(prot, sig, hdr.View(), algProtected);
  }

  /** A decoded countersignature: its protected bucket, its signature, its header fields,
      and whether the protected bucket has the algorithm label. */
  datatype DecodedCounter = DecodedCounter(prot: seq<byte>, sig: seq<byte>, hdr: Fields, algProtected: bool)

  /** The items of a list: every one skipped and checked. */
  method CheckItems(ctx: Decoder, count: nat) returns (ret: Status)
    requires |ctx.cbuf| <= SIZE_MAX
    modifies ctx
    ensures var r := CounterItems(ctx.cbuf, old(ctx.idx), count);
      ret == r.Status() && (ret.Success? ==> ctx.idx == r.next)
  {
    hide FullCounter, SkipItems, CounterItems;
    ret := Success;
    ghost var start, goal := ctx.idx, CounterItems(ctx.cbuf, ctx.idx, count);
    var i: int := 0;
    while ret.Success? && i < count
      invariant 0 <= i && (ret.Success? ==> i <= count)
      invariant ret.Fail? ==> goal == Err(ret.error)
      invariant ret.Success? ==> SameEnd(goal, CounterItems(ctx.cbuf, ctx.idx, count - i))
      decreases ret.Success?, count - i
    {
      ItemsStep(ctx.cbuf, ctx.idx, count - i);
      var value;
      ret, value := ctx.SkipItem();
      if ret.Success? {
        assert |value| <= |ctx.cbuf|;
        ret := ValidateFullCounter(value);
      }
      i := i + 1;
    }
    if ret.Success? {
      ItemsNone(ctx.cbuf, ctx.idx);
    }
  }

  /** Two readings that end at one place, or fail alike. */
  ghost predicate SameEnd<T>(a: Dec<T>, b: Dec<T>) {
    if a.Ok? then b.Ok? && a.next == b.next else a == b
  }

  /** `wolfCose_CounterListInfo`. */
  method CounterListInfo(input: seq<byte>) returns (ret: Status, info: ListInfo)
    requires |input| <= SIZE_MAX
    ensures ret == Countersign.CounterListInfo(input).Status()
    ensures ret.Success? ==> info == Countersign.CounterListInfo(input).value
  {
    hide FullCounter, CounterItems, DecodeContainer, PeekType;
    info := ListInfo(0, 0, false);
    var ctx := new Decoder(input);
    var count;
    ret, count := ctx.DecodeArray(false);
    if ret.Fail? {
      return;
    }
    if count == 0 || ctx.idx >= |input| {
      return Fail(CborMalformed), info;
    }
    var first := ctx.PeekType();
    if first == BSTR {
      ret := ValidateFullCounter(input);
      if ret.Success? {
        info := ListInfo(1, 0, false);
      }
    } else if first == ARRAY {
      if count > MAX_MAP_ITEMS {
        return Fail(CborMalformed), info;
      }
      var contentOffset := ctx.idx;
      ret := CheckItems(ctx, count);
      if ret.Success? && ctx.idx != |input| {
        ret := Fail(CborMalformed);
      }
      if ret.Success? {
        info := ListInfo(count, contentOffset, true);
      }
    } else {
      ret := Fail(CborMalformed);
    }
  }

  /** An item of a list, by skipping the items before it. */
  lemma {:induction false} ItemsAt(v: seq<byte>, i: nat, n: nat, k: nat)
    requires CounterItems(v, i, n).Ok? && k <= n
    ensures CounterItems(v, i, k).Ok? && CounterItems(v, i, k).value == CounterItems(v, i, n).value[..k]
    ensures k < n ==> var j := CounterItems(v, i, k).next;
      && Skip(v, j, false).Ok? && j < Skip(v, j, false).next <= |v|
      && v[j..Skip(v, j, false).next] == CounterItems(v, i, n).value[k]
      && FullCounter(v[j..Skip(v, j, false).next]).Ok?
    decreases k
  {
    hide *;
    var cs := CounterItems(v, i, n).value;
    if k == 0 {
      ItemsNone(v, i);
      if n > 0 {
        ItemsStep(v, i, n);
      }
    } else {
      ItemsStep(v, i, n);
      ItemsStep(v, i, k);
      var j := Skip(v, i, false).next;
      ItemsAt(v, j, n - 1, k - 1);
      assert cs[..k] == [cs[0]] + cs[1..][..k - 1];
    }
  }

  /** `wolfCose_SelectFullCounter`. */
  method SelectFullCounter(input: seq<byte>, counterIndex: nat) returns (ret: Status, selected: seq<byte>)
    requires |input| <= SIZE_MAX
    ensures ret == Countersign.SelectFullCounter(input, counterIndex).Status()
    ensures ret.Success? ==> selected == Countersign.SelectFullCounter(input, counterIndex).value
  {
    hide FullCounter, CounterItems, DecodeContainer, SkipItems, Countersign.CounterListInfo, Counters;
    selected := [];
    var info;
    ret, info := CounterListInfo(input);
    if ret.Success? && counterIndex >= info.count {
      ret := Fail(InvalidArg);
    }
    if ret.Success? && !info.isList {
      InfoOfSingle(input);
      selected := input;
    } else if ret.Success? {
      InfoOfList(input);
      var ctx := new Decoder(input);
      var count;
      ret, count := ctx.DecodeArray(false);
      ItemsNone(input, info.contentOffset);
      var i := 0;
      while ret.Success? && i <= counterIndex
        invariant 0 <= i <= counterIndex + 1
        invariant ret.Success?
        invariant CounterItems(input, info.contentOffset, i).Ok?
        invariant ctx.idx == CounterItems(input, info.contentOffset, i).next
        invariant i == counterIndex + 1 ==> selected == Counters(input)[counterIndex]
      {
        ItemsAt(input, info.contentOffset, info.count, i);
        ghost var at := ctx.idx;
        ret, selected := ctx.SkipItem();
        ItemsAppend(input, info.contentOffset, i, ctx.idx);
        i := i + 1;
      }
    }
  }
}
