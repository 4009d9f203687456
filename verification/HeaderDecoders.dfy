/**
 The decoders of the protected and of the unprotected bucket: loops over the entries
 of a map that fill a header record and a label state.
 */
module HeaderDecoders {
  import opened Wire
  import opened Cbor
  import opened CborRoundTrip
  import opened CborContext
  import opened Header
  import opened HeaderLemmas
  import opened HeaderState
  import opened HeaderContext
  import opened Bits

  /** One more entry of a walk: how the walk over all `n` entries goes on after `k` of them. */
  lemma WalkNext(s: seq<byte>, start: nat, k: nat, n: nat, b: Bucket, seen: set<Label>, tol: bool)
    requires Walk(s, start, k, b, seen, tol).Ok? && k < n
    ensures var es, j := Walk(s, start, k, b, seen, tol).value, Walk(s, start, k, b, seen, tol).next;
      var d := DecodeLabel(s, j, tol);
      var goal := Walk(s, start, n, b, seen, tol);
      if d.Err? then goal == Err(d.error)
      else if b != Protected && d.value == IntLabel(CRIT) then goal == Err(CoseBadHdr)
      else if d.value in seen + Labels(es) then goal == Err(CborMalformed)
      else
        var v := Value(s, d.next, b, d.value, tol);
        if v.Err? then goal == Err(v.error)
        else Walk(s, start, k + 1, b, seen, tol) == Ok(es + [Entry(d.value, j, d.next, v.next)], v.next)
  {
    hide *;
    var es, j := Walk(s, start, k, b, seen, tol).value, Walk(s, start, k, b, seen, tol).next;
    WalkJoin(s, start, k, n - k, b, seen, tol);
    WalkJoin(s, start, k, 1, b, seen, tol);
    WalkFirst(s, j, n - k, b, seen + Labels(es), tol);
    WalkFirst(s, j, 1, b, seen + Labels(es), tol);
  }

  lemma WalkFirst(s: seq<byte>, j: nat, n: nat, b: Bucket, seen: set<Label>, tol: bool)
    requires n > 0
    ensures var d := DecodeLabel(s, j, tol);
      var goal := Walk(s, j, n, b, seen, tol);
      if d.Err? then goal == Err(d.error)
      else if b != Protected && d.value == IntLabel(CRIT) then goal == Err(CoseBadHdr)
      else if d.value in seen then goal == Err(CborMalformed)
      else
        var v := Value(s, d.next, b, d.value, tol);
        if v.Err? then goal == Err(v.error)
        else n == 1 ==> goal == Ok([Entry(d.value, j, d.next, v.next)], v.next)
  {
    hide DecodeLabel, Value;
    var d := DecodeLabel(s, j, tol);
    if d.Ok? {
      var v := Value(s, d.next, b, d.value, tol);
      if v.Ok? {
        WalkNone(s, v.next, b, seen + {d.value}, tol);
        assert [Entry(d.value, j, d.next, v.next)] + [] == [Entry(d.value, j, d.next, v.next)];
      }
    }
  }

  lemma LabelsLast(es: seq<Entry>, e: Entry)
    ensures Labels(es + [e]) == Labels(es) + {e.lbl}
  {
    LabelsJoin(es, [e]);
    LabelsCons(e, []);
    assert [e] + [] == [e];
  }

  lemma BstrNext(s: seq<byte>, es: seq<Entry>, e: Entry, n: i64, tol: bool)
    requires e.valueAt >= 0 && (e.lbl == IntLabel(n) ==> DecodeBstr(s, e.valueAt, tol).Ok?)
    ensures BstrField(s, es + [e], n, tol)
         == if e.lbl == IntLabel(n) then Some(DecodeBstr(s, e.valueAt, tol).value) else BstrField(s, es, n, tol)
  {
    hide DecodeBstr, Find;
    FindLast(es, e, IntLabel(n));
  }

  lemma AlgNext(s: seq<byte>, es: seq<Entry>, e: Entry, tol: bool)
    requires e.valueAt >= 0 && (e.lbl == IntLabel(ALG) ==> AlgValue(s, e.valueAt, tol).Ok?)
    ensures AlgField(s, es + [e], tol)
         == if e.lbl == IntLabel(ALG) then AlgValue(s, e.valueAt, tol).value else AlgField(s, es, tol)
    ensures IntLabel(ALG) !in Labels(es) ==> AlgField(s, es, tol).None?
  {
    hide AlgValue, Find;
    FindLast(es, e, IntLabel(ALG));
  }

  lemma ContentTypeNext(s: seq<byte>, es: seq<Entry>, e: Entry, tol: bool)
    requires e.valueAt >= 0 && (e.lbl == IntLabel(CONTENT_TYPE) ==> ContentTypeValue(s, e.valueAt, tol).Ok?)
    ensures ContentTypeField(s, es + [e], tol)
         == if e.lbl == IntLabel(CONTENT_TYPE) then ContentTypeValue(s, e.valueAt, tol).value
            else ContentTypeField(s, es, tol)
    ensures IntLabel(CONTENT_TYPE) !in Labels(es) ==> ContentTypeField(s, es, tol).None?
  {
    hide ContentTypeValue, Find;
    FindLast(es, e, IntLabel(CONTENT_TYPE));
  }

  lemma CritNext(s: seq<byte>, es: seq<Entry>, e: Entry, tol: bool)
    requires e.valueAt >= 0 && (e.lbl == IntLabel(CRIT) ==> CritValue(s, e.valueAt, tol).Ok?)
    ensures CritField(s, es + [e], tol)
         == if e.lbl == IntLabel(CRIT) then CritValue(s, e.valueAt, tol).value else CritField(s, es, tol)
    ensures IntLabel(CRIT) !in Labels(es) ==> CritField(s, es, tol) == []
  {
    hide CritValue, Find;
    FindLast(es, e, IntLabel(CRIT));
  }

  /** The typed decoder behind a value that was accepted. */
  lemma ValueParts(s: seq<byte>, i: nat, b: Bucket, lbl: Label, tol: bool)
    requires b != Counter && Value(s, i, b, lbl, tol).Ok?
    ensures lbl == IntLabel(ALG) ==> AlgValue(s, i, tol).Ok?
    ensures lbl == IntLabel(CRIT) && b == Protected ==> CritValue(s, i, tol).Ok?
    ensures lbl == IntLabel(CONTENT_TYPE) ==> ContentTypeValue(s, i, tol).Ok?
    ensures lbl == IntLabel(KID) || lbl == IntLabel(IV) || lbl == IntLabel(PARTIAL_IV) ==> DecodeBstr(s, i, tol).Ok?
  {
    hide AlgValue, CritValue, ContentTypeValue, DecodeBstr, Skip;
  }

  /** A record that held `f`, after the value at `i` of an entry labelled `lbl`. */
  function Stored(f: Fields, s: seq<byte>, i: nat, b: Bucket, lbl: Label, tol: bool): Fields
    requires b != Counter && Value(s, i, b, lbl, tol).Ok?
  {
    ValueParts(s, i, b, lbl, tol);
    if lbl == IntLabel(ALG) then
      match AlgValue(s, i, tol).value { case Some(n) => f.(alg := n) case None => f }
    else if lbl == IntLabel(CONTENT_TYPE) then
      f.(contentType := match ContentTypeValue(s, i, tol).value { case Some(n) => n case None => f.contentType },
         contentTypeUnprotected := f.contentTypeUnprotected || b == Unprotected)
    else if lbl == IntLabel(KID) then f.(kid := Some(DecodeBstr(s, i, tol).value))
    else if lbl == IntLabel(IV) then f.(iv := Some(DecodeBstr(s, i, tol).value))
    else if lbl == IntLabel(PARTIAL_IV) then f.(partialIv := Some(DecodeBstr(s, i, tol).value))
    else if lbl == IntLabel(X5CHAIN) then f.(x5chain := true)
    else f
  }

  /** Each field of the record after one more value. */
  lemma StoredFields(f: Fields, s: seq<byte>, i: nat, b: Bucket, lbl: Label, tol: bool)
    requires b != Counter && Value(s, i, b, lbl, tol).Ok?
    ensures var r := Stored(f, s, i, b, lbl, tol);
      && r.alg == (if lbl == IntLabel(ALG) && AlgValue(s, i, tol).Ok? && AlgValue(s, i, tol).value.Some?
                   then AlgValue(s, i, tol).value.value else f.alg)
      && r.contentType == (if lbl == IntLabel(CONTENT_TYPE) && ContentTypeValue(s, i, tol).Ok?
                              && ContentTypeValue(s, i, tol).value.Some?
                           then ContentTypeValue(s, i, tol).value.value else f.contentType)
      && r.contentTypeUnprotected == (f.contentTypeUnprotected || (lbl == IntLabel(CONTENT_TYPE) && b == Unprotected))
      && r.x5chain == (f.x5chain || lbl == IntLabel(X5CHAIN))
    ensures var r := Stored(f, s, i, b, lbl, tol); var d := DecodeBstr(s, i, tol);
      && r.kid == (if lbl == IntLabel(KID) && d.Ok? then Some(d.value) else f.kid)
      && r.iv == (if lbl == IntLabel(IV) && d.Ok? then Some(d.value) else f.iv)
      && r.partialIv == (if lbl == IntLabel(PARTIAL_IV) && d.Ok? then Some(d.value) else f.partialIv)
  {
    hide AlgValue, ContentTypeValue, DecodeBstr, Value;
    ValueParts(s, i, b, lbl, tol);
  }

  /** What a new entry does to the record. */
  lemma FieldsNext(s: seq<byte>, es: seq<Entry>, e: Entry, b: Bucket, base: Fields, tol: bool)
    requires e.valueAt >= 0 && b != Counter && Value(s, e.valueAt, b, e.lbl, tol).Ok? && e.lbl !in Labels(es)
    ensures FieldsAfter(s, es + [e], b, base, tol)
         == Stored(FieldsAfter(s, es, b, base, tol), s, e.valueAt, b, e.lbl, tol)
  {
    hide AlgValue, ContentTypeValue, CritValue, DecodeString, DecodeBstr, Labels, AlgField, ContentTypeField, BstrField,
         Value, Find, Skip, Stored;
    ValueParts(s, e.valueAt, b, e.lbl, tol);
    StoredFields(FieldsAfter(s, es, b, base, tol), s, e.valueAt, b, e.lbl, tol);
    AlgNext(s, es, e, tol);
    ContentTypeNext(s, es, e, tol);
    BstrNext(s, es, e, KID, tol);
    BstrNext(s, es, e, IV, tol);
    BstrNext(s, es, e, PARTIAL_IV, tol);
    LabelsLast(es, e);
  }

  lemma FieldsNone(s: seq<byte>, b: Bucket, base: Fields, tol: bool)
    ensures FieldsAfter(s, [], b, base, tol) == base
    ensures CritField(s, [], tol) == [] && ContentTypeField(s, [], tol).None? && Labels([]) == {}
  {
  }

  /** A byte string field is present exactly when its label is. */
  lemma BstrPresent(s: seq<byte>, start: nat, n: nat, b: Bucket, seen: set<Label>, tol: bool, f: i64)
    requires Walk(s, start, n, b, seen, tol).Ok? && b != Counter && f in {KID, IV, PARTIAL_IV}
    ensures var es := Walk(s, start, n, b, seen, tol).value;
      BstrField(s, es, f, tol).Some? <==> IntLabel(f) in Labels(es)
  {
    var es := Walk(s, start, n, b, seen, tol).value;
    if IntLabel(f) in Labels(es) {
      var e := Find(es, IntLabel(f)).value;
      var k :| 0 <= k < |es| && es[k] == e;
      WalkLength(s, start, n, b, seen, tol);
      WalkLayout(s, start, n, b, seen, tol, k);
      ValueParts(s, e.valueAt, b, e.lbl, tol);
    }
  }

  /** A text label can be read again from where it stands. */
  lemma EncodedLabel(s: seq<byte>, i: nat, tol: bool)
    requires DecodeLabel(s, i, tol).Ok? && DecodeLabel(s, i, tol).value.TextLabel?
    ensures DecodeTstr(s[i..], 0, true).Ok? && EncodedText(s[i..]) == DecodeLabel(s, i, tol).value.text
  {
    var e := DecodeHead(s, i, tol).next;
    var t := s[i..];
    assert t[0..e - i] == s[i..e];
    HeadFraming(s, i, tol, t, 0);
    StrictIffTolerantAndPreferred(t, 0);
  }

  /** The value of one entry: the typed decoder its label asks for, and the field it fills. */
  method DecodeValue(ctx: Decoder, hdr: Hdr, lbl: Label, b: Bucket, tol: bool)
    returns (ret: Status, critLabels: bv32, ghost crit: seq<i64>, understood: bool)
    requires b != Counter
    modifies ctx, hdr
    ensures ret == Value(ctx.cbuf, old(ctx.idx), b, lbl, tol).Status()
    ensures ret.Success? ==> ctx.idx == Value(ctx.cbuf, old(ctx.idx), b, lbl, tol).next
    ensures ret.Success? ==> hdr.View() == Stored(old(hdr.View()), ctx.cbuf, old(ctx.idx), b, lbl, tol)
    ensures critLabels == BitsOf(crit)
    ensures ret.Success? && lbl == IntLabel(CRIT) && b == Protected ==>
      CritValue(ctx.cbuf, old(ctx.idx), tol).Ok? && crit == CritValue(ctx.cbuf, old(ctx.idx), tol).value
    ensures ret.Success? ==> (understood <==>
      lbl == IntLabel(CONTENT_TYPE) && ContentTypeValue(ctx.cbuf, old(ctx.idx), tol).Ok?
      && ContentTypeValue(ctx.cbuf, old(ctx.idx), tol).value.Some?)
  {
    hide AlgValue, ContentTypeValue, CritValue, DecodeBstr, Skip, LabelBit, Or;
    critLabels, crit, understood := 0, [], false;
    if lbl == IntLabel(ALG) {
      var alg;
      ret, alg := DecodeAlg(ctx, tol);
      if ret.Success? && alg.Some? {
        hdr.alg := alg.value;
      }
    } else if lbl == IntLabel(CRIT) && b == Protected {
      ret, critLabels, crit := DecodeCrit(ctx, tol);
    } else if lbl == IntLabel(CONTENT_TYPE) {
      if b == Unprotected {
        hdr.contentTypeUnprotected := true;
      }
      var contentType;
      ret, contentType := DecodeContentType(ctx, tol);
      if ret.Success? && contentType.Some? {
        hdr.contentType := contentType.value;
        understood := true;
      }
    } else if lbl == IntLabel(KID) {
      var data;
      ret, data := ctx.DecodeBstr(tol);
      if ret.Success? {
        hdr.kid := Some(data);
      }
    } else if lbl == IntLabel(IV) {
      var data;
      ret, data := ctx.DecodeBstr(tol);
      if ret.Success? {
        hdr.iv := Some(data);
      }
    } else if lbl == IntLabel(PARTIAL_IV) {
      var data;
      ret, data := ctx.DecodeBstr(tol);
      if ret.Success? {
        hdr.partialIv := Some(data);
      }
    } else if lbl == IntLabel(X5CHAIN) {
      hdr.x5chain := true;
      ret := ctx.Skip(tol);
    } else {
      ret := ctx.Skip(tol);
    }
  }

  /** What the loop over a bucket knows after `k` entries `es`; `labels` is the state that
      records their labels. */
  ghost predicate SoFar(ctx: Decoder, hdr: Hdr, labels: HdrState, start: nat, k: nat, b: Bucket, seen: set<Label>,
                        tol: bool, es: seq<Entry>, base: Fields)
    requires b != Counter
    reads ctx, hdr, labels
  {
    && Walk(ctx.cbuf, start, k, b, seen, tol) == Ok(es, ctx.idx)
    && hdr.View() == FieldsAfter(ctx.cbuf, es, b, base, tol)
    && labels.Valid() && labels.labels == Labels(es)
    && |labels.extraIntegerLabels| <= k && |labels.extraTextLabels| <= k
  }

  /** One entry of the protected bucket. */
  method ProtectedEntry(ctx: Decoder, hdr: Hdr, hdrState: HdrState, tol: bool, critSoFar: bv32, understoodSoFar: bool,
                        ghost start: nat, ghost k: nat, ghost n: nat, ghost es: seq<Entry>, ghost base: Fields)
    returns (ret: Status, critLabels: bv32, contentTypeUnderstood: bool, ghost es': seq<Entry>)
    requires |ctx.cbuf| <= SIZE_MAX && k < n <= MAX_MAP_ITEMS
    requires SoFar(ctx, hdr, hdrState, start, k, Protected, {}, tol, es, base)
    requires critSoFar == BitsOf(CritField(ctx.cbuf, es, tol))
    requires understoodSoFar <==> ContentTypeField(ctx.cbuf, es, tol).Some?
    modifies ctx, hdr, hdrState
    ensures hdrState.Valid()
    ensures ret.Fail? ==> Walk(ctx.cbuf, start, n, Protected, {}, tol) == Err(ret.error)
    ensures ret.Success? ==> SoFar(ctx, hdr, hdrState, start, k + 1, Protected, {}, tol, es', base)
    ensures ret.Success? ==> critLabels == BitsOf(CritField(ctx.cbuf, es', tol))
    ensures ret.Success? ==> (contentTypeUnderstood <==> ContentTypeField(ctx.cbuf, es', tol).Some?)
  {
    hide Walk, FieldsAfter, CritField, ContentTypeField, Labels, Or, LabelBit, Stored, Value, BstrField, DecodeLabel,
         DecodeTstr, EncodedText, InBits, Hdr.View, HdrState.Valid;
    critLabels, contentTypeUnderstood, es' := critSoFar, understoodSoFar, es;
    WalkNext(ctx.cbuf, start, k, n, Protected, {}, tol);
    ghost var at := ctx.idx;
    var encodedLabel := if ctx.idx < |ctx.cbuf| then ctx.cbuf[ctx.idx..] else [];
    var lbl;
    ret, lbl := ctx.DecodeLabel(tol);
    if ret.Success? {
      if lbl.TextLabel? {
        EncodedLabel(ctx.cbuf, at, tol);
      }
      ret := hdrState.CheckAndAddLabel(lbl, encodedLabel);
    }
    if ret.Success? {
      ghost var valueAt := ctx.idx;
      var crit, understood;
      ghost var list;
      ret, crit, list, understood := DecodeValue(ctx, hdr, lbl, Protected, tol);
      if ret.Success? {
        ghost var e := Entry(lbl, at, valueAt, ctx.idx);
        EntryTaken(ctx.cbuf, es, e, Protected, base, tol);
        es' := es + [e];
        if lbl == IntLabel(CRIT) {
          critLabels := crit;
        }
        if understood {
          contentTypeUnderstood := true;
        }
      }
    }
  }

  /** All entries of the protected bucket. */
  method ProtectedEntries(ctx: Decoder, hdr: Hdr, hdrState: HdrState, tol: bool, mapCount: nat)
    returns (ret: Status, critLabels: bv32, contentTypeUnderstood: bool, ghost es: seq<Entry>)
    requires |ctx.cbuf| <= SIZE_MAX && mapCount <= MAX_MAP_ITEMS
    requires hdrState.Valid() && hdrState.labels == {}
    requires |hdrState.extraIntegerLabels| == 0 && |hdrState.extraTextLabels| == 0
    modifies ctx, hdr, hdrState
    ensures hdrState.Valid()
    ensures var r := Walk(ctx.cbuf, old(ctx.idx), mapCount, Protected, {}, tol);
      && ret == r.Status()
      && (ret.Success? ==>
            SoFar(ctx, hdr, hdrState, old(ctx.idx), mapCount, Protected, {}, tol, es, old(hdr.View())))
    ensures ret.Success? ==> critLabels == BitsOf(CritField(ctx.cbuf, es, tol))
    ensures ret.Success? ==> (contentTypeUnderstood <==> ContentTypeField(ctx.cbuf, es, tol).Some?)
  {
    hide Walk, FieldsAfter, CritField, ContentTypeField, Labels, Or, LabelBit, HdrState.Valid;
    ghost var start, base := ctx.idx, hdr.View();
    ret, critLabels, contentTypeUnderstood, es := Success, 0, false, [];
    WalkNone(ctx.cbuf, start, Protected, {}, tol);
    FieldsNone(ctx.cbuf, Protected, base, tol);
    BitsOfNext([], 1);
    var i := 0;
    while ret.Success? && i < mapCount
      invariant 0 <= i && (ret.Success? ==> i <= mapCount) && hdrState.Valid()
      invariant ret.Fail? ==> Walk(ctx.cbuf, start, mapCount, Protected, {}, tol) == Err(ret.error)
      invariant ret.Success? ==> SoFar(ctx, hdr, hdrState, start, i, Protected, {}, tol, es, base)
      invariant ret.Success? ==> critLabels == BitsOf(CritField(ctx.cbuf, es, tol))
      invariant ret.Success? ==> (contentTypeUnderstood <==> ContentTypeField(ctx.cbuf, es, tol).Some?)
      decreases ret.Success?, mapCount - i
    {
      ret, critLabels, contentTypeUnderstood, es :=
        ProtectedEntry(ctx, hdr, hdrState, tol, critLabels, contentTypeUnderstood, start, i, mapCount, es, base);
      i := i + 1;
    }
  }

  /** `wolfCose_DecodeProtectedHdr_ex`, into a record that holds no IV yet. */
  method DecodeProtectedHdr(data: seq<byte>, hdr: Hdr, hdrState: HdrState, tol: bool) returns (ret: Status)
    requires |data| <= SIZE_MAX && hdr.iv.None? && hdr.partialIv.None?
    modifies hdr, hdrState
    ensures hdrState.Valid()
    ensures ret == ProtectedHdr(data, tol).Status()
    ensures ret.Success? ==>
      var es := ProtectedHdr(data, tol).value;
      hdrState.labels == Labels(es) && hdr.View() == FieldsAfter(data, es, Protected, old(hdr.View()), tol)
  {
    hide Walk, FieldsAfter, CritField, ContentTypeField, DecodeMap, Labels, HdrState.Valid;
    ghost var base := hdr.View();
    hdrState.Init();
    if |data| == 0 {
      FieldsNone(data, Protected, base, tol);
      return Success;
    }
    var ctx := new Decoder(data);
    var mapCount;
    ret, mapCount := ctx.DecodeMap(tol);
    if ret.Fail? {
      return;
    }
    if mapCount > MAX_MAP_ITEMS {
      return Fail(CborMalformed);
    }
    ghost var start := ctx.idx;
    var critLabels, contentTypeUnderstood;
    ghost var es;
    ret, critLabels, contentTypeUnderstood, es := ProtectedEntries(ctx, hdr, hdrState, tol, mapCount);
    if ret.Success? {
      ret := ProtectedRules(data, start, mapCount, tol, es, critLabels, contentTypeUnderstood, hdr, hdrState, base, ctx.idx);
    }
  }

  /** What the loop needs of one more entry. */
  lemma EntryTaken(s: seq<byte>, es: seq<Entry>, e: Entry, b: Bucket, base: Fields, tol: bool)
    requires e.valueAt >= 0 && b != Counter && Value(s, e.valueAt, b, e.lbl, tol).Ok? && e.lbl !in Labels(es)
    ensures FieldsAfter(s, es + [e], b, base, tol)
         == Stored(FieldsAfter(s, es, b, base, tol), s, e.valueAt, b, e.lbl, tol)
    ensures Labels(es + [e]) == Labels(es) + {e.lbl}
    ensures b == Protected ==>
      CritField(s, es + [e], tol)
      == if e.lbl == IntLabel(CRIT) then CritValue(s, e.valueAt, tol).value else CritField(s, es, tol)
    ensures ContentTypeField(s, es + [e], tol)
         == if e.lbl == IntLabel(CONTENT_TYPE) then ContentTypeValue(s, e.valueAt, tol).value
            else ContentTypeField(s, es, tol)
    ensures e.lbl == IntLabel(CONTENT_TYPE) ==> ContentTypeField(s, es, tol).None?
    ensures e.lbl == IntLabel(CONTENT_TYPE) ==> ContentTypeValue(s, e.valueAt, tol).Ok?
    ensures b == Protected && e.lbl == IntLabel(CRIT) ==> CritValue(s, e.valueAt, tol).Ok?
  {
    hide FieldsAfter, Stored, Value, ContentTypeField, CritField, ContentTypeValue, CritValue, Labels;
    ValueParts(s, e.valueAt, b, e.lbl, tol);
    FieldsNext(s, es, e, b, base, tol);
    LabelsLast(es, e);
    ContentTypeNext(s, es, e, tol);
    if b == Protected {
      CritNext(s, es, e, tol);
    }
  }

  /** Whether a label of a countersignature is among those seen. */
  method SawCounterLabel(hdrState: HdrState) returns (found: bool)
    requires hdrState.Valid()
    ensures found <==> HasCounterLabel(hdrState.labels)
  {
    hide HdrState.Valid;
    var v2 := hdrState.Contains(COUNTERSIGNATURE_V2);
    var v20 := hdrState.Contains(COUNTERSIGNATURE0_V2);
    var legacy := hdrState.Contains(COUNTERSIGNATURE_LEGACY);
    var legacy0 := hdrState.Contains(COUNTERSIGNATURE0_LEGACY);
    found := v2 || v20 || legacy || legacy0;
  }

  /** The rules checked after the loop, in the order the library checks them. */
  method ProtectedRules(data: seq<byte>, ghost start: nat, ghost n: nat, tol: bool, ghost es: seq<Entry>,
                        critLabels: bv32, contentTypeUnderstood: bool, hdr: Hdr, hdrState: HdrState,
                        ghost base: Fields, idx: nat) returns (ret: Status)
    requires data != [] && DecodeMap(data, 0, tol) == Ok(n, start) && n <= MAX_MAP_ITEMS
    requires Walk(data, start, n, Protected, {}, tol) == Ok(es, idx)
    requires hdrState.Valid() && hdrState.labels == Labels(es)
    requires critLabels == BitsOf(CritField(data, es, tol))
    requires contentTypeUnderstood <==> ContentTypeField(data, es, tol).Some?
    requires hdr.View() == FieldsAfter(data, es, Protected, base, tol) && base.iv.None? && base.partialIv.None?
    ensures ret == ProtectedHdr(data, tol).Status()
    ensures ret.Success? ==> ProtectedHdr(data, tol).value == es
  {
    hide Walk, ContentTypeField, DecodeMap, Labels, Or, And, AndNot, LabelBit, Bit, BstrField, AlgField, InBits, HasCounterLabel,
         CritValue, BitsOf;
    ret := Success;
    ghost var crit := CritField(data, es, tol);
    CritTracked(data, es, tol);
    CritInside(crit, hdrState.labelBits);
    BitsOfHolds(crit, CONTENT_TYPE);
    BitsAreLabels(hdrState, crit);
    BstrPresent(data, start, n, Protected, {}, tol, IV);
    BstrPresent(data, start, n, Protected, {}, tol, PARTIAL_IV);
    if AndNot(critLabels, hdrState.labelBits) != 0 {
      return Fail(CoseBadHdr);
    }
    if InBits(critLabels, CONTENT_TYPE) && !contentTypeUnderstood {
      return Fail(CoseBadHdr);
    }
    var countersigned := SawCounterLabel(hdrState);
    if countersigned {
      return Fail(CoseBadHdr);
    }
    if hdr.iv.Some? && hdr.partialIv.Some? {
      return Fail(CoseBadHdr);
    }
    if idx != |data| {
      return Fail(CborMalformed);
    }
  }

  lemma CritTracked(s: seq<byte>, es: seq<Entry>, tol: bool)
    ensures forall c :: c in CritField(s, es, tol) ==> 1 <= c <= 6 && Tracked(c)
  {
    hide CritValue, Find;
  }

  /** Of tracked labels, those in the state are those whose bit is set. */
  lemma BitsAreLabels(state: HdrState, crit: seq<i64>)
    requires state.Valid() && (forall c :: c in crit ==> Tracked(c))
    ensures (forall c :: c in crit ==> InBits(state.labelBits, c))
       <==> !exists k :: 0 <= k < |crit| && IntLabel(crit[k]) !in state.labels
  {
    hide InBits;
    forall c | c in crit
      ensures InBits(state.labelBits, c) <==> IntLabel(c) in state.labels
    {
      assert state.HasInteger(c) <==> IntLabel(c) in state.labels;
    }
  }

  /** One entry of the unprotected bucket. */
  method UnprotectedEntry(ctx: Decoder, hdr: Hdr, hdrState: HdrState, unprotState: HdrState, tol: bool,
                          ghost start: nat, ghost k: nat, ghost n: nat, ghost es: seq<Entry>, ghost base: Fields)
    returns (ret: Status, ghost es': seq<Entry>)
    requires |ctx.cbuf| <= SIZE_MAX && k < n <= MAX_MAP_ITEMS
    requires hdrState.Valid() && hdrState != unprotState
    requires SoFar(ctx, hdr, unprotState, start, k, Unprotected, hdrState.labels, tol, es, base)
    modifies ctx, hdr, unprotState
    ensures unprotState.Valid()
    ensures ret.Fail? ==> Walk(ctx.cbuf, start, n, Unprotected, hdrState.labels, tol) == Err(ret.error)
    ensures ret.Success? ==> SoFar(ctx, hdr, unprotState, start, k + 1, Unprotected, hdrState.labels, tol, es', base)
  {
    hide Walk, FieldsAfter, CritField, ContentTypeField, Labels, Or, LabelBit, Stored, Value, BstrField, DecodeLabel,
         DecodeTstr, EncodedText, InBits, Hdr.View, HdrState.Valid;
    es' := es;
    WalkNext(ctx.cbuf, start, k, n, Unprotected, hdrState.labels, tol);
    ghost var at := ctx.idx;
    var encodedLabel := if ctx.idx < |ctx.cbuf| then ctx.cbuf[ctx.idx..] else [];
    var lbl;
    ret, lbl := ctx.DecodeLabel(tol);
    if ret.Success? {
      if lbl.TextLabel? {
        EncodedLabel(ctx.cbuf, at, tol);
      }
      if lbl == IntLabel(CRIT) {
        ret := Fail(CoseBadHdr);
      } else {
        var here := unprotState.ContainsLabel(lbl);
        var there := hdrState.ContainsLabel(lbl);
        if here || there {
          ret := Fail(CborMalformed);
        } else {
          ret := unprotState.AddLabel(lbl, encodedLabel);
        }
      }
    }
    if ret.Success? {
      ghost var valueAt := ctx.idx;
      var crit, understood;
      ghost var list;
      ret, crit, list, understood := DecodeValue(ctx, hdr, lbl, Unprotected, tol);
      if ret.Success? {
        ghost var e := Entry(lbl, at, valueAt, ctx.idx);
        EntryTaken(ctx.cbuf, es, e, Unprotected, base, tol);
        es' := es + [e];
      }
    }
  }

  /** `wolfCose_DecodeUnprotectedHdr_ex`, after the protected bucket was decoded into the
      same record and state. */
  method DecodeUnprotectedHdr(ctx: Decoder, hdr: Hdr, hdrState: HdrState, tol: bool) returns (ret: Status)
    requires |ctx.cbuf| <= SIZE_MAX && hdrState.Valid()
    requires hdr.iv.Some? <==> IntLabel(IV) in hdrState.labels
    requires hdr.partialIv.Some? <==> IntLabel(PARTIAL_IV) in hdrState.labels
    modifies ctx, hdr, hdrState
    ensures hdrState.Valid()
    ensures ret == UnprotectedHdr(ctx.cbuf, old(ctx.idx), old(hdrState.labels), tol).Status()
    ensures ret.Success? ==>
      var r := UnprotectedHdr(ctx.cbuf, old(ctx.idx), old(hdrState.labels), tol);
      && ctx.idx == r.next
      && hdr.View() == FieldsAfter(ctx.cbuf, r.value, Unprotected, old(hdr.View()), tol)
      && MergedLabels(hdrState.labels, old(hdrState.labels), Labels(r.value))
  {
    hide Walk, FieldsAfter, DecodeMap, Labels, HdrState.Valid, InBits;
    ghost var s, base, prot := ctx.cbuf, hdr.View(), hdrState.labels;
    var unprotState := new HdrState();
    var mapCount;
    ret, mapCount := ctx.DecodeMap(tol);
    if ret.Fail? {
      return;
    }
    if mapCount > MAX_MAP_ITEMS {
      return Fail(CborMalformed);
    }
    ghost var start, es := ctx.idx, [];
    WalkNone(s, start, Unprotected, prot, tol);
    FieldsNone(s, Unprotected, base, tol);
    var i := 0;
    while ret.Success? && i < mapCount
      invariant 0 <= i && (ret.Success? ==> i <= mapCount)
      invariant hdrState.Valid() && hdrState.labels == prot && unprotState.Valid() && fresh(unprotState)
      invariant ret.Fail? ==> Walk(s, start, mapCount, Unprotected, prot, tol) == Err(ret.error)
      invariant ret.Success? ==> SoFar(ctx, hdr, unprotState, start, i, Unprotected, prot, tol, es, base)
      decreases ret.Success?, mapCount - i
    {
      ret, es := UnprotectedEntry(ctx, hdr, hdrState, unprotState, tol, start, i, mapCount, es, base);
      i := i + 1;
    }
    if ret.Success? {
      IvAfter(s, start, mapCount, prot, tol, es, base);
      if hdr.iv.Some? && hdr.partialIv.Some? {
        ret := Fail(CoseBadHdr);
      }
    }
    if ret.Success? {
      BitsOfState(unprotState);
      hdrState.MergeBits(unprotState);
    }
  }

  /** The state after both buckets: the labels of the protected one, and those of the
      unprotected one that have a tracking bit. */
  ghost predicate MergedLabels(merged: set<Label>, prot: set<Label>, unprot: set<Label>) {
    && (forall n: i64 :: IntLabel(n) in merged <==> IntLabel(n) in prot || (Tracked(n) && IntLabel(n) in unprot))
    && (forall t :: TextLabel(t) in merged <==> TextLabel(t) in prot)
  }

  /** Of tracked labels, those in a state are those whose bit is set. */
  lemma BitsOfState(state: HdrState)
    requires state.Valid()
    ensures forall n: i64 :: Tracked(n) ==> (IntLabel(n) in state.labels <==> InBits(state.labelBits, n))
  {
    hide InBits, Tracked;
    forall n: i64 | Tracked(n)
      ensures IntLabel(n) in state.labels <==> InBits(state.labelBits, n)
    {
      assert state.HasInteger(n) <==> IntLabel(n) in state.labels;
    }
  }

  lemma IvAfter(s: seq<byte>, start: nat, n: nat, prot: set<Label>, tol: bool, es: seq<Entry>, base: Fields)
    requires Walk(s, start, n, Unprotected, prot, tol).Ok? && Walk(s, start, n, Unprotected, prot, tol).value == es
    requires base.iv.Some? <==> IntLabel(IV) in prot
    requires base.partialIv.Some? <==> IntLabel(PARTIAL_IV) in prot
    ensures var f := FieldsAfter(s, es, Unprotected, base, tol);
      && (f.iv.Some? <==> IntLabel(IV) in prot + Labels(es))
      && (f.partialIv.Some? <==> IntLabel(PARTIAL_IV) in prot + Labels(es))
  {
    hide Walk, BstrField, AlgField, ContentTypeField, Labels;
    BstrPresent(s, start, n, Unprotected, prot, tol, IV);
    BstrPresent(s, start, n, Unprotected, prot, tol, PARTIAL_IV);
  }
}
