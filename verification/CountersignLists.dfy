/**
 Lists of countersignatures: a written full countersignature is accepted, and a value
 with one more keeps all earlier ones at their indices.
 */
module CountersignLists {
  import opened Wire
  import opened Cbor
  import opened CborGrammar
  import opened CborRoundTrip
  import opened Header
  import opened HeaderLemmas
  import opened Countersign
  import opened CountersignLemmas

  // ----- Items of a list -----

  lemma ItemsStep(v: seq<byte>, i: nat, n: nat)
    requires n > 0
    ensures var k := Skip(v, i, false);
      CounterItems(v, i, n)
      == if k.Err? then Err(k.error)
         else var c := FullCounter(v[i..k.next]);
           if c.Err? then Err(c.error)
           else var r := CounterItems(v, k.next, n - 1);
             if r.Ok? then Ok([v[i..k.next]] + r.value, r.next) else r
    ensures CounterItems(v, i, n).Ok? ==>
      i < Skip(v, i, false).next <= CounterItems(v, i, n).next <= |v|
  {
    hide Skip, FullCounter;
  }

  lemma ItemsNone(v: seq<byte>, i: nat)
    ensures CounterItems(v, i, 0) == Ok([], i)
  {
  }

  lemma SameSliceIs(s: seq<byte>, i: nat, t: seq<byte>, j: nat, n: nat)
    requires SameSlice(s, i, t, j, n)
    ensures i + n <= |s| && j + n <= |t| && s[i..i + n] == t[j..j + n]
  {
  }

  /** Countersignatures in a row are read the same wherever they stand. */
  lemma {:induction false} ItemsFraming(v: seq<byte>, i: nat, n: nat, t: seq<byte>, j: nat)
    requires CounterItems(v, i, n).Ok? && i <= |v| && |t| <= SIZE_MAX
    requires SameSlice(v, i, t, j, CounterItems(v, i, n).next - i)
    ensures CounterItems(t, j, n) == Ok(CounterItems(v, i, n).value, j + (CounterItems(v, i, n).next - i))
    decreases n
  {
    hide *;
    if n == 0 {
      ItemsNone(v, i);
      ItemsNone(t, j);
      return;
    }
    ItemsStep(v, i, n);
    ItemsStep(t, j, n);
    var e, k := CounterItems(v, i, n).next, Skip(v, i, false).next;
    SameSlicePart(v, i, t, j, e - i, 0, k - i);
    SameSliceIs(v, i, t, j, k - i);
    ItemFraming(v, i, false, t, j);
    SameSlicePart(v, i, t, j, e - i, k - i, e - k);
    ItemsFraming(v, k, n - 1, t, j + (k - i));
  }

  /** One more countersignature after the others. */
  lemma {:induction false} ItemsAppend(t: seq<byte>, j: nat, n: nat, e: nat)
    requires CounterItems(t, j, n).Ok?
    requires var k := CounterItems(t, j, n).next;
      Skip(t, k, false) == Ok((), e) && FullCounter(t[k..e]).Ok?
    ensures CounterItems(t, j, n + 1)
         == Ok(CounterItems(t, j, n).value + [t[CounterItems(t, j, n).next..e]], e)
    decreases n
  {
    hide *;
    ItemsStep(t, j, n + 1);
    if n == 0 {
      ItemsNone(t, j);
      ItemsNone(t, e);
      assert [t[j..e]] + [] == [] + [t[j..e]];
    } else {
      ItemsStep(t, j, n);
      var k := Skip(t, j, false).next;
      ItemsAppend(t, k, n - 1, e);
      var c, cs, last := t[j..k], CounterItems(t, k, n - 1).value, t[CounterItems(t, j, n).next..e];
      assert [c] + (cs + [last]) == ([c] + cs) + [last];
    }
  }

  /** The items of a list are skipped one after another. */
  lemma {:induction false} ItemsSkipped(v: seq<byte>, i: nat, n: nat, d: nat)
    requires CounterItems(v, i, n).Ok? && i <= |v| <= SIZE_MAX
    requires SkipItems(v, i, n, d, false).Ok? && d <= CBOR_MAX_DEPTH
    ensures SkipItems(v, i, n, d, false).next == CounterItems(v, i, n).next
    decreases n
  {
    hide *;
    SkipDeeper(v, i, n, d, CBOR_MAX_DEPTH, false);
    ItemsSkippedAtLimit(v, i, n);
  }

  lemma {:induction false} ItemsSkippedAtLimit(v: seq<byte>, i: nat, n: nat)
    requires CounterItems(v, i, n).Ok? && i <= |v| <= SIZE_MAX
    ensures SkipItems(v, i, n, CBOR_MAX_DEPTH, false) == Ok((), CounterItems(v, i, n).next)
    decreases n
  {
    hide *;
    if n == 0 {
      ItemsNone(v, i);
      SkipNothing(v, i, CBOR_MAX_DEPTH, false, i);
    } else {
      ItemsStep(v, i, n);
      var k := Skip(v, i, false).next;
      ItemsSkippedAtLimit(v, k, n - 1);
      OneSkipped(v, i);
      SkipJoin(v, i, 1, n - 1, CBOR_MAX_DEPTH, false);
    }
  }

  lemma OneSkipped(v: seq<byte>, i: nat)
    ensures Skip(v, i, false) == SkipItems(v, i, 1, CBOR_MAX_DEPTH, false)
  {
  }

  // ----- A value that grows -----

  /** A countersignature that can be attached: one item of two levels, accepted as a full
      countersignature. */
  predicate Attachable(c: seq<byte>) {
    FullCounter(c).Ok? && SkipItems(c, 0, 1, 2, false) == Ok((), |c|)
  }

  /** The countersignatures of a value, without the head of a list. */
  function ListBody(v: seq<byte>): (b: seq<byte>)
    requires CounterListInfo(v).Ok?
  {
    var info := CounterListInfo(v).value;
    if info.isList then v[info.contentOffset..] else v
  }

  lemma InfoOfList(v: seq<byte>)
    requires CounterListInfo(v).Ok? && CounterListInfo(v).value.isList
    ensures var info := CounterListInfo(v).value; var n, i := info.count, info.contentOffset;
      && DecodeArray(v, 0, false) == Ok(n, i) && 0 < n <= MAX_MAP_ITEMS && i < |v|
      && PeekType(v, i) == ARRAY
      && CounterItems(v, i, n).Ok? && CounterItems(v, i, n).next == |v|
      && Counters(v) == CounterItems(v, i, n).value
      && ListBody(v) == v[i..]
  {
    hide DecodeContainer, CounterItems, PeekType, FullCounter;
  }

  lemma InfoOfSingle(v: seq<byte>)
    requires CounterListInfo(v).Ok? && !CounterListInfo(v).value.isList
    ensures var info := CounterListInfo(v).value;
      && info.count == 1 && Counters(v) == [v] && FullCounter(v).Ok? && v != [] && PeekType(v, 0) == ARRAY
      && ListBody(v) == v
  {
    hide CounterItems, FullCounter, HeadArgument;
  }

  lemma ListInfoBack(v: seq<byte>, n: nat, i: nat)
    requires DecodeArray(v, 0, false) == Ok(n, i) && 0 < n <= MAX_MAP_ITEMS && i < |v|
    requires PeekType(v, i) == ARRAY
    requires CounterItems(v, i, n).Ok? && CounterItems(v, i, n).next == |v|
    ensures CounterListInfo(v) == Ok(ListInfo(n, i, true), |v|)
    ensures Counters(v) == CounterItems(v, i, n).value
  {
    hide DecodeContainer, CounterItems, PeekType, FullCounter;
  }

  /** Without the head, the countersignatures of a value are `n` items in a row. */
  lemma BodyItems(v: seq<byte>)
    requires CounterListInfo(v).Ok? && Skip(v, 0, false) == Ok((), |v|) && |v| <= SIZE_MAX
    ensures var b := ListBody(v); var n := CounterListInfo(v).value.count;
      && b != [] && PeekType(b, 0) == ARRAY && n <= |b| <= |v|
      && CounterItems(b, 0, n) == Ok(Counters(v), |b|)
  {
    hide *;
    var info, b := CounterListInfo(v).value, ListBody(v);
    if info.isList {
      InfoOfList(v);
      SuffixIsSlice(v, info.contentOffset);
      PeekFraming(v, info.contentOffset, b, 0, |b|);
      ItemsFraming(v, info.contentOffset, info.count, b, 0);
    } else {
      InfoOfSingle(v);
      ItemsStep(v, 0, 1);
      ItemsNone(v, |v|);
      assert v[0..|v|] == v && [v] + [] == [v];
    }
  }

  lemma SuffixIsSlice(v: seq<byte>, i: nat)
    requires i <= |v|
    ensures SameSlice(v, i, v[i..], 0, |v| - i) && |v[i..]| == |v| - i
  {
    assert v[i..][0..|v| - i] == v[i..];
  }

  /** How a grown value is laid out. */
  lemma GrownLayout(v: seq<byte>, ctr: seq<byte>)
    requires CounterListInfo(v).Ok? && CounterListInfo(v).value.count < MAX_MAP_ITEMS
    requires CounterListInfo(v).value.count + 1 < U64_BOUND
    ensures var info, b := CounterListInfo(v).value, ListBody(v);
      var g, h := GrownValue(v, info, ctr), HeadSize(info.count + 1);
      && |g| == h + |b| + |ctr|
      && SameSlice(EncodeHead(ARRAY, info.count + 1), 0, g, 0, h)
      && SameSlice(b, 0, g, h, |b|)
      && SameSlice(ctr, 0, g, h + |b|, |ctr|)
      && g[h + |b|..] == ctr
  {
    hide CounterItems, FullCounter, DecodeHead, EncodeHead;
    var info, b := CounterListInfo(v).value, ListBody(v);
    var head := EncodeHead(ARRAY, info.count + 1);
    assert GrownValue(v, info, ctr) == head + b + ctr;
    ThreeParts(head, b, ctr);
  }

  lemma ThreeParts(a: seq<byte>, b: seq<byte>, c: seq<byte>)
    ensures var g := a + b + c;
      && SameSlice(a, 0, g, 0, |a|) && SameSlice(b, 0, g, |a|, |b|)
      && SameSlice(c, 0, g, |a| + |b|, |c|) && g[|a| + |b|..] == c
  {
    var g := a + b + c;
    assert a[0..|a|] == a == g[0..|a|];
    assert b[0..|b|] == b == g[|a|..|a| + |b|];
    assert c[0..|c|] == c == g[|a| + |b|..|a| + |b| + |c|];
  }

  /** The new countersignature inside a larger buffer. */
  lemma AttachableAt(c: seq<byte>, g: seq<byte>, k: nat)
    requires Attachable(c) && |g| <= SIZE_MAX && SameSlice(c, 0, g, k, |c|)
    ensures Skip(g, k, false) == Ok((), k + |c|) && g[k..k + |c|] == c && c != []
    ensures SkipItems(g, k, 1, CBOR_MAX_DEPTH - 1, false) == Ok((), k + |c|)
  {
    hide SkipItems, SameSlice, FullCounter;
    SameSliceIs(c, 0, g, k, |c|);
    assert c[0..|c|] == c;
    SkipFraming(c, 0, 1, 2, false, g, k);
    SkipDeeper(g, k, 1, 2, CBOR_MAX_DEPTH - 1, false);
    SkipDeeper(g, k, 1, 2, CBOR_MAX_DEPTH, false);
  }

  /** A grown value holds the countersignatures it held, at the same indices, and the new
      one behind them. */
  lemma GrownCounters(v: seq<byte>, ctr: seq<byte>)
    requires CounterListInfo(v).Ok? && CounterListInfo(v).value.count < MAX_MAP_ITEMS
    requires Skip(v, 0, false) == Ok((), |v|) && Attachable(ctr)
    requires |GrownValue(v, CounterListInfo(v).value, ctr)| <= SIZE_MAX && |v| <= SIZE_MAX
    ensures var n, g := CounterListInfo(v).value.count, GrownValue(v, CounterListInfo(v).value, ctr);
      && n + 1 < U64_BOUND
      && CounterListInfo(g) == Ok(ListInfo(n + 1, HeadSize(n + 1), true), |g|)
      && Counters(g) == Counters(v) + [ctr]
  {
    hide *;
    var info, b := CounterListInfo(v).value, ListBody(v);
    var n, g := info.count, GrownValue(v, info, ctr);
    BodyItems(v);
    SmallCount(n, v);
    GrownLayout(v, ctr);
    var h := HeadSize(n + 1);
    PeekFraming(b, 0, g, h, |b|);
    ItemsFraming(b, 0, n, g, h);
    AttachableAt(ctr, g, h + |b|);
    AttachableIs(ctr);
    SliceToEnd(g, h + |b|);
    ItemsAppend(g, h, n, |g|);
    DecodeArrayIs(g, 0, n + 1);
    ListInfoBack(g, n + 1, h);
  }

  lemma SmallCount(n: nat, v: seq<byte>)
    requires n <= |v| <= SIZE_MAX && CounterListInfo(v).Ok? && CounterListInfo(v).value.count == n
    ensures n + 1 < U64_BOUND
  {
    hide FullCounter, CounterItems, DecodeHead;
  }

  lemma AttachableIs(c: seq<byte>)
    requires Attachable(c)
    ensures FullCounter(c).Ok? && c != []
  {
    hide FullCounter;
  }

  lemma SliceToEnd<T>(g: seq<T>, i: nat)
    requires i <= |g|
    ensures g[i..|g|] == g[i..]
  {
  }

  // ----- Nesting -----

  /** Whether a value stays within the depth limit when it grows: a single countersignature
      gets one level deeper. */
  predicate CanNest(v: seq<byte>)
    requires CounterListInfo(v).Ok?
  {
    CounterListInfo(v).value.isList || SkipItems(v, 0, 1, CBOR_MAX_DEPTH - 1, false).Ok?
  }

  /** The countersignatures of a value, skipped one level below a list head. */
  lemma BodySkipped(v: seq<byte>)
    requires CounterListInfo(v).Ok? && Skip(v, 0, false) == Ok((), |v|) && |v| <= SIZE_MAX && CanNest(v)
    ensures |ListBody(v)| <= |v|
    ensures SkipItems(ListBody(v), 0, CounterListInfo(v).value.count, CBOR_MAX_DEPTH - 1, false)
         == Ok((), |ListBody(v)|)
  {
    hide FullCounter, CounterItems, SkipItems, DecodeArray, PeekType, ListBody, CounterListInfo;
    var info, b := CounterListInfo(v).value, ListBody(v);
    if info.isList {
      InfoOfList(v);
      var n, i := info.count, info.contentOffset;
      SkippedList(v, 0, n, i);
      ItemsSkipped(v, i, n, CBOR_MAX_DEPTH - 1);
      SuffixIsSlice(v, i);
      SkipFraming(v, i, n, CBOR_MAX_DEPTH - 1, false, b, 0);
    } else {
      InfoOfSingle(v);
      SkipDeeper(v, 0, 1, CBOR_MAX_DEPTH - 1, CBOR_MAX_DEPTH, false);
    }
  }

  /** What skipping an array skips. */
  lemma SkippedList(v: seq<byte>, i: nat, n: nat, j: nat)
    requires Skip(v, i, false).Ok? && i <= |v| && DecodeArray(v, i, false) == Ok(n, j) && n > 0
    ensures SkipItems(v, j, n, CBOR_MAX_DEPTH - 1, false).Ok?
  {
    SkipCases(v, i, 1, CBOR_MAX_DEPTH, false);
    hide SkipItems, DecodeHead;
  }

  /** An array whose items are skipped is skipped. */
  lemma ListSkipped(v: seq<byte>, i: nat, n: nat, j: nat)
    requires DecodeArray(v, i, false) == Ok(n, j) && n > 0
    requires SkipItems(v, j, n, CBOR_MAX_DEPTH - 1, false).Ok?
    requires SkipItems(v, j, n, CBOR_MAX_DEPTH - 1, false).next <= |v|
    ensures Skip(v, i, false) == Ok((), SkipItems(v, j, n, CBOR_MAX_DEPTH - 1, false).next)
  {
    hide SkipItems, DecodeHead;
    SkipContainer(v, i, 1, CBOR_MAX_DEPTH, false);
    SkipNothing(v, SkipItems(v, j, n, CBOR_MAX_DEPTH - 1, false).next, CBOR_MAX_DEPTH, false, |v|);
  }

  /** A grown value is one item when the old value left room for one more level. */
  lemma GrownNests(v: seq<byte>, ctr: seq<byte>)
    requires CounterListInfo(v).Ok? && CounterListInfo(v).value.count < MAX_MAP_ITEMS && CanNest(v)
    requires Skip(v, 0, false) == Ok((), |v|) && Attachable(ctr)
    requires |GrownValue(v, CounterListInfo(v).value, ctr)| <= SIZE_MAX && |v| <= SIZE_MAX
    ensures var g := GrownValue(v, CounterListInfo(v).value, ctr); Skip(g, 0, false) == Ok((), |g|)
  {
    hide *;
    var info, b := CounterListInfo(v).value, ListBody(v);
    var n, g := info.count, GrownValue(v, info, ctr);
    BodyItems(v);
    SmallCount(n, v);
    GrownLayout(v, ctr);
    var h := HeadSize(n + 1);
    AttachableAt(ctr, g, h + |b|);
    DecodeArrayIs(g, 0, n + 1);
    BodySkipped(v);
    SkipFraming(b, 0, n, CBOR_MAX_DEPTH - 1, false, g, h);
    SkipJoin(g, h, n, 1, CBOR_MAX_DEPTH - 1, false);
    ListSkipped(g, 0, n + 1, h);
  }

  lemma ArrayHeadWithin(g: seq<byte>, n: u64, u: seq<byte>, i: nat)
    requires SameSlice(EncodeHead(ARRAY, n), 0, g, 0, HeadSize(n)) && SameSlice(g, 0, u, i, |g|)
    requires HeadSize(n) + n <= |g|
    ensures DecodeArray(u, i, false) == Ok(n, i + HeadSize(n))
  {
    hide DecodeArray, EncodeHead, HeadSize;
    Within(EncodeHead(ARRAY, n), g, 0, u, i);
    SameSliceBound(g, 0, u, i, |g|);
    DecodeArrayIs(u, i, n);
  }

  /** Wherever a grown value stands, it is skipped only when the old value left room for
      one more level. */
  lemma NestsWhereSkipped(v: seq<byte>, ctr: seq<byte>, u: seq<byte>, i: nat)
    requires CounterListInfo(v).Ok? && CounterListInfo(v).value.count < MAX_MAP_ITEMS
    requires Skip(v, 0, false) == Ok((), |v|) && |v| <= SIZE_MAX && i <= |u| <= SIZE_MAX && ctr != []
    requires var g := GrownValue(v, CounterListInfo(v).value, ctr);
      |g| <= SIZE_MAX && SameSlice(g, 0, u, i, |g|)
    requires Skip(u, i, false).Ok?
    ensures CanNest(v)
  {
    hide *;
    var info, b := CounterListInfo(v).value, ListBody(v);
    var n, g := info.count, GrownValue(v, info, ctr);
    BodyItems(v);
    SmallCount(n, v);
    GrownLayout(v, ctr);
    var h := HeadSize(n + 1);
    Within(b, g, h, u, i);
    SameSliceBound(g, 0, u, i, |g|);
    ArrayHeadWithin(g, n + 1, u, i);
    SkippedList(u, i, n + 1, i + h);
    SkipFirst(u, i + h, n, CBOR_MAX_DEPTH - 1, false);
    NestsFromGrown(v, u, i + h);
  }

  /** The first item of the grown list was the old value, when that was a single one. */
  lemma NestsFromGrown(v: seq<byte>, g: seq<byte>, h: nat)
    requires CounterListInfo(v).Ok? && Skip(v, 0, false) == Ok((), |v|) && |v| <= SIZE_MAX && h <= |g| <= SIZE_MAX
    requires SameSlice(ListBody(v), 0, g, h, |ListBody(v)|)
    requires SkipItems(g, h, 1, CBOR_MAX_DEPTH - 1, false).Ok?
    ensures CanNest(v)
  {
    hide FullCounter, CounterItems, SkipItems, DecodeArray, PeekType, ListBody, CounterListInfo;
    if !CounterListInfo(v).value.isList {
      InfoOfSingle(v);
      ItemFraming(v, 0, false, g, h);
      SkipDeeper(g, h, 1, CBOR_MAX_DEPTH - 1, CBOR_MAX_DEPTH, false);
      SkipFraming(g, h, 1, CBOR_MAX_DEPTH - 1, false, v, 0);
    }
  }

  // ----- A written countersignature -----

  /** The protected bucket that names an algorithm is accepted, and names it. */
  lemma AlgHeaderAccepted(alg: i64)
    requires InInt32(alg)
    ensures var prot := AlgHeader(alg); var es := [Entry(IntLabel(ALG), 1, 2, |prot|)];
      && ProtectedHdr(prot, false) == Ok(es, |prot|) && AlgField(prot, es, false) == Some(alg)
      && Labels(es) == {IntLabel(ALG)}
  {
    hide DecodeHead, EncodeHead, EncodeInt, DecodeMap, Walk;
    var prot := AlgHeader(alg);
    var es := [Entry(IntLabel(ALG), 1, 2, |prot|)];
    ThreeParts(EncodeHead(MAP, 1), EncodeHead(UINT, ALG), EncodeInt(alg));
    DecodeMapIs(prot, 0, 1);
    LabelRead(ALG, prot, 1);
    AlgRead(alg, prot, 2);
    WalkOneOf(prot, 1, Protected, {}, IntLabel(ALG), 2, |prot|);
    LabelsCons(es[0], []);
    NoLabels();
    assert es == [es[0]] + [];
  }

  lemma LabelRead(n: u64, s: seq<byte>, i: nat)
    requires n <= INT64_MAX && SameSlice(EncodeHead(UINT, n), 0, s, i, HeadSize(n))
    ensures DecodeLabel(s, i, false) == Ok(IntLabel(n), i + HeadSize(n))
  {
    hide DecodeHead, EncodeHead, SameSlice;
    HeadRoundTrip(UINT, n, false, s, i);
  }

  lemma AlgRead(alg: i64, s: seq<byte>, i: nat)
    requires InInt32(alg) && SameSlice(EncodeInt(alg), 0, s, i, |EncodeInt(alg)|)
    ensures AlgValue(s, i, false) == Ok(Some(alg), i + |EncodeInt(alg)|)
  {
    IntRoundTrip(alg, false, s, i);
    hide HeadArgument, SameSlice, EncodeHead, SkipItems;
  }

  /** A map of one entry. */
  lemma WalkOneOf(s: seq<byte>, i: nat, b: Bucket, seen: set<Label>, lbl: Label, j: nat, e: nat)
    requires DecodeLabel(s, i, false) == Ok(lbl, j) && (b != Protected ==> lbl != IntLabel(CRIT)) && lbl !in seen
    requires Value(s, j, b, lbl, false) == Ok((), e)
    ensures Walk(s, i, 1, b, seen, false) == Ok([Entry(lbl, i, j, e)], e)
  {
    hide *;
    WalkCons(s, i, 1, b, seen, false, lbl, j, e);
    WalkNone(s, e, b, seen + {lbl}, false);
    assert [Entry(lbl, i, j, e)] + [] == [Entry(lbl, i, j, e)];
  }

  /** The written unprotected bucket is accepted, holds the key identifier when there is
      one, and is one item of one level. */
  lemma KidMapAccepted(kid: seq<byte>, c: seq<byte>, j: nat)
    requires |kid| <= SIZE_MAX && SameSlice(KidMap(kid), 0, c, j, |KidMap(kid)|)
    ensures var r := UnprotectedHdr(c, j, {IntLabel(ALG)}, false);
      && r.Ok? && r.next == j + |KidMap(kid)|
      && BstrField(c, r.value, KID, false) == (if kid == [] then None else Some(kid))
      && AlgField(c, r.value, false) == None
    ensures SkipItems(c, j, 1, 1, false) == Ok((), j + |KidMap(kid)|)
  {
    if kid == [] {
      EmptyMapAccepted(c, j);
    } else {
      OneKidAccepted(kid, c, j);
    }
  }

  lemma EmptyMapAccepted(c: seq<byte>, j: nat)
    requires SameSlice(EncodeHead(MAP, 0), 0, c, j, 1)
    ensures UnprotectedHdr(c, j, {IntLabel(ALG)}, false) == Ok([], j + 1)
    ensures BstrField(c, [], KID, false) == None && AlgField(c, [], false) == None
    ensures SkipItems(c, j, 1, 1, false) == Ok((), j + 1)
  {
    hide DecodeHead, EncodeHead, DecodeMap, SkipItems, Walk;
    DecodeMapIs(c, j, 0);
    HeadRoundTrip(MAP, 0, false, c, j);
    WalkNone(c, j + 1, Unprotected, {IntLabel(ALG)}, false);
    NoLabels();
    SkipOfHead(c, j, 1, false);
  }

  lemma OneKidAccepted(kid: seq<byte>, c: seq<byte>, j: nat)
    requires 0 < |kid| <= SIZE_MAX && SameSlice(KidMap(kid), 0, c, j, |KidMap(kid)|)
    ensures var es := [Entry(IntLabel(KID), j + 1, j + 2, j + |KidMap(kid)|)];
      && UnprotectedHdr(c, j, {IntLabel(ALG)}, false) == Ok(es, j + |KidMap(kid)|)
      && BstrField(c, es, KID, false) == Some(kid) && AlgField(c, es, false) == None
    ensures SkipItems(c, j, 1, 1, false) == Ok((), j + |KidMap(kid)|)
  {
    hide DecodeHead, EncodeHead, EncodeString, DecodeMap, Walk, SkipItems, SameSlice, KidMap;
    var n := |KidMap(kid)|;
    var es := [Entry(IntLabel(KID), j + 1, j + 2, j + n)];
    OneKidParts(kid, c, j);
    DecodeMapIs(c, j, 1);
    LabelRead(KID, c, j + 1);
    BstrRead(kid, c, j + 2);
    WalkOneOf(c, j + 1, Unprotected, {IntLabel(ALG)}, IntLabel(KID), j + 2, j + n);
    OneEntry(es[0]);
    OneKidSkipped(kid, c, j);
  }

  /** Where the parts of the bucket stand. */
  lemma OneKidParts(kid: seq<byte>, c: seq<byte>, j: nat)
    requires 0 < |kid| <= SIZE_MAX && SameSlice(KidMap(kid), 0, c, j, |KidMap(kid)|)
    ensures var v := EncodeBstr(kid);
      && |KidMap(kid)| == 2 + |v| && j + 2 + |v| <= |c| && |v| >= 2
      && HeadSize(1) == 1 && HeadSize(KID) == 1
      && SameSlice(EncodeHead(MAP, 1), 0, c, j, 1) && SameSlice(EncodeHead(UINT, KID), 0, c, j + 1, 1)
      && SameSlice(v, 0, c, j + 2, |v|)
  {
    hide EncodeHead, EncodeInt, EncodeString, SameSlice;
    var m, n := KidMap(kid), |KidMap(kid)|;
    assert m == EncodeHead(MAP, 1) + EncodeHead(UINT, KID) + EncodeBstr(kid) by { KidLabel(); }
    ThreeParts(EncodeHead(MAP, 1), EncodeHead(UINT, KID), EncodeBstr(kid));
    Within(EncodeHead(MAP, 1), m, 0, c, j);
    Within(EncodeHead(UINT, KID), m, 1, c, j);
    Within(EncodeBstr(kid), m, 2, c, j);
    SameSliceBound(m, 0, c, j, n);
  }

  /** The bucket is one item of one level. */
  lemma OneKidSkipped(kid: seq<byte>, c: seq<byte>, j: nat)
    requires 0 < |kid| <= SIZE_MAX && SameSlice(KidMap(kid), 0, c, j, |KidMap(kid)|)
    ensures SkipItems(c, j, 1, 1, false) == Ok((), j + |KidMap(kid)|)
  {
    hide DecodeHead, EncodeHead, EncodeString, SkipItems, SameSlice, KidMap;
    var n := |KidMap(kid)|;
    OneKidParts(kid, c, j);
    BstrRead(kid, c, j + 2);
    HeadRoundTrip(MAP, 1, false, c, j);
    HeadRoundTrip(UINT, KID, false, c, j + 1);
    SkipContainer(c, j, 1, 1, false);
    SkipPlain(c, j + 1, 2, 0, false);
    SkipPlain(c, j + 2, 1, 0, false);
    SkipNothing(c, j + n, 0, false, j + n);
    SkipNothing(c, j + n, 1, false, j + n);
  }

  lemma OneEntry(e: Entry)
    ensures Labels([e]) == {e.lbl} && Find([e], e.lbl) == Some(e)
  {
    LabelsCons(e, []);
    NoLabels();
    assert [e] == [e] + [];
  }

  lemma KidLabel()
    ensures EncodeInt(KID) == EncodeHead(UINT, KID)
  {
  }

  /** A part of something that stands in a buffer stands there itself. */
  lemma Within(p: seq<byte>, m: seq<byte>, at: nat, c: seq<byte>, j: nat)
    requires SameSlice(p, 0, m, at, |p|) && SameSlice(m, 0, c, j, |m|)
    ensures SameSlice(p, 0, c, j + at, |p|)
  {
    SameSlicePart(m, 0, c, j, |m|, at, |p|);
  }

  lemma BstrRead(data: seq<byte>, s: seq<byte>, i: nat)
    requires |data| <= SIZE_MAX && SameSlice(EncodeBstr(data), 0, s, i, |EncodeBstr(data)|)
    ensures DecodeBstr(s, i, false) == Ok(data, i + |EncodeBstr(data)|)
    ensures DecodeHead(s, i, false) == Ok(Item(BSTR, |data|, data), i + |EncodeBstr(data)|)
  {
    hide DecodeHead, EncodeString, SameSlice;
    StringRoundTrip(BSTR, data, false, s, i);
  }

  /** A written countersignature is accepted, with the algorithm, key identifier and
      signature it was written with, and is one item of two levels. */
  lemma WrittenCounter(alg: i64, kid: seq<byte>, sig: seq<byte>)
    requires InInt32(alg) && |kid| <= SIZE_MAX && |sig| <= SIZE_MAX
    ensures var c := FullCounterBytes(AlgHeader(alg), kid, sig); var r := FullCounter(c);
      && Attachable(c)
      && r.Ok? && r.value.prot == AlgHeader(alg) && r.value.sig == sig
      && AlgField(r.value.prot, r.value.ps, false) == Some(alg) && IntLabel(ALG) in Labels(r.value.ps)
      && AlgField(c, r.value.us, false) == None
      && BstrField(c, r.value.us, KID, false) == (if kid == [] then None else Some(kid))
  {
    hide DecodeHead, EncodeHead, EncodeString, KidMap, AlgHeader, DecodeArray, SkipItems, SameSlice, ProtectedHdr,
         UnprotectedHdr, AlgField, BstrField, DecodeBstr;
    var prot := AlgHeader(alg);
    var c := FullCounterBytes(prot, kid, sig);
    var p, m, g := EncodeBstr(prot), KidMap(kid), EncodeBstr(sig);
    FourParts(EncodeHead(ARRAY, 3), p, m, g);
    var j, k := 1 + |p|, 1 + |p| + |m|;
    BstrRead(prot, c, 1);
    AlgHeaderAccepted(alg);
    KidMapAccepted(kid, c, j);
    BstrRead(sig, c, k);
    DecodeArrayIs(c, 0, 3);
    HeadRoundTrip(ARRAY, 3, false, c, 0);
    SkipContainer(c, 0, 1, 2, false);
    SkipPlain(c, 1, 3, 1, false);
    SkipNothing(c, |c|, 1, false, |c|);
    SkipNothing(c, |c|, 2, false, |c|);
    SkipPlain(c, k, 1, 1, false);
    SkipTwo(c, j, k, 1);
  }

  /** Two items in a row. */
  lemma SkipTwo(c: seq<byte>, j: nat, k: nat, d: nat)
    requires SkipItems(c, j, 1, d, false) == Ok((), k)
    ensures SkipItems(c, j, 2, d, false) == SkipItems(c, k, 1, d, false)
    decreases |c| - j
  {
    if DecodeHead(c, j, false).value.major == TAG {
      SkipTwo(c, DecodeHead(c, j, false).next, k, d);
    }
  }

  lemma FourParts(a: seq<byte>, b: seq<byte>, c: seq<byte>, d: seq<byte>)
    ensures var g := a + b + c + d;
      && SameSlice(a, 0, g, 0, |a|) && SameSlice(b, 0, g, |a|, |b|)
      && SameSlice(c, 0, g, |a| + |b|, |c|) && SameSlice(d, 0, g, |a| + |b| + |c|, |d|)
  {
    var g := a + b + c + d;
    assert a[0..|a|] == a == g[0..|a|];
    assert b[0..|b|] == b == g[|a|..|a| + |b|];
    assert c[0..|c|] == c == g[|a| + |b|..|a| + |b| + |c|];
    assert d[0..|d|] == d == g[|a| + |b| + |c|..|g|];
  }
}
