/**
 A message to which a countersignature can be attached once but whose result does not
 parse: its single countersignature already has the nesting that the library allows.
 */
module CountersignDepth {
  import opened Wire
  import opened Cbor
  import opened CborGrammar
  import opened NestedArrays
  import opened Header
  import opened Countersign
  import opened CountersignLemmas
  import opened CountersignLists
  import opened CountersignKeeps

  /** A full countersignature whose unprotected bucket maps 20 to `Deep`: two levels more. */
  function DeepCounter(): (v: seq<byte>) {
    [0x83, 0x40, 0xA1, 0x14] + Deep(CBOR_MAX_DEPTH - 2) + [0x40]
  }

  /** A COSE_Sign1 message that carries it. */
  function DeepMessage(): (s: seq<byte>)
    ensures |s| <= SIZE_MAX
  {
    [0xD2, 0x84, 0x40, 0xA1, 0x0B] + DeepCounter() + [0x40, 0x40]
  }

  /** The bytes of the deep countersignature, wherever it stands. */
  lemma DeepBytes(s: seq<byte>, i: nat)
    requires SameSlice(DeepCounter(), 0, s, i, |DeepCounter()|)
    ensures var e := i + CBOR_MAX_DEPTH + 4;
      && |DeepCounter()| == CBOR_MAX_DEPTH + 4 && e <= |s|
      && s[i] == 0x83 && s[i + 1] == 0x40 && s[i + 2] == 0xA1 && s[i + 3] == 0x14 && s[e - 1] == 0x40
      && SameSlice(Deep(CBOR_MAX_DEPTH - 2), 0, s, i + 4, CBOR_MAX_DEPTH - 1)
  {
    hide Deep;
    var v, d := DeepCounter(), Deep(CBOR_MAX_DEPTH - 2);
    SameSliceAt(v, 0, s, i, |v|, 0);
    SameSliceAt(v, 0, s, i, |v|, 1);
    SameSliceAt(v, 0, s, i, |v|, 2);
    SameSliceAt(v, 0, s, i, |v|, 3);
    SameSliceAt(v, 0, s, i, |v|, |v| - 1);
    assert v[4..4 + |d|] == d == d[0..|d|];
    SameSlicePart(v, 0, s, i, |v|, 4, |d|);
  }

  /** The heads of the deep countersignature, apart from the nested arrays. */
  lemma DeepHeads(s: seq<byte>, i: nat)
    requires SameSlice(DeepCounter(), 0, s, i, |DeepCounter()|)
    ensures var k := i + CBOR_MAX_DEPTH + 3;
      && k < |s| && k + 1 == i + |DeepCounter()|
      && DecodeHead(s, i, false) == Ok(Item(ARRAY, 3, []), i + 1)
      && DecodeHead(s, i + 1, false) == Ok(Item(BSTR, 0, []), i + 2)
      && DecodeHead(s, i + 2, false) == Ok(Item(MAP, 1, []), i + 3)
      && DecodeHead(s, i + 3, false) == Ok(Item(UINT, 0x14, []), i + 4)
      && DecodeHead(s, k, false) == Ok(Item(BSTR, 0, []), k + 1)
      && SameSlice(Deep(CBOR_MAX_DEPTH - 2), 0, s, i + 4, CBOR_MAX_DEPTH - 1)
  {
    hide DecodeHead, SameSlice, Deep, DeepCounter;
    DeepBytes(s, i);
    ByteHead(s, i, false);
    ByteHead(s, i + 1, false);
    ByteHead(s, i + 2, false);
    ByteHead(s, i + 3, false);
    ByteHead(s, i + CBOR_MAX_DEPTH + 3, false);
  }

  /** The unprotected bucket of the deep countersignature. */
  lemma DeepMapSkip(s: seq<byte>, i: nat, left: nat)
    requires SameSlice(DeepCounter(), 0, s, i, |DeepCounter()|) && left >= 2
    ensures SkipItems(s, i + 2, 1, left, false).Ok? <==> left + 1 >= CBOR_MAX_DEPTH
    ensures left + 1 >= CBOR_MAX_DEPTH ==> SkipItems(s, i + 2, 1, left, false) == Ok((), i + CBOR_MAX_DEPTH + 3)
  {
    hide SkipItems, DecodeHead, SameSlice, Deep, DeepCounter;
    DeepHeads(s, i);
    var k := i + CBOR_MAX_DEPTH + 3;
    DeepSkip(CBOR_MAX_DEPTH - 2, s, i + 4, left - 1, false);
    SkipContainer(s, i + 2, 1, left, false);
    SkipPlain(s, i + 3, 2, left - 1, false);
    SkipNothing(s, k, left, false, k);
  }

  /** The deep countersignature needs every level that the library allows. */
  lemma DeepCounterSkip(s: seq<byte>, i: nat, left: nat)
    requires SameSlice(DeepCounter(), 0, s, i, |DeepCounter()|) && left >= 3 && |s| <= SIZE_MAX
    ensures SkipItems(s, i, 1, left, false).Ok? <==> left >= CBOR_MAX_DEPTH
    ensures left >= CBOR_MAX_DEPTH ==> SkipItems(s, i, 1, left, false) == Ok((), i + |DeepCounter()|)
  {
    hide SkipItems, DecodeHead, SameSlice, Deep, DeepCounter;
    DeepHeads(s, i);
    var k := i + CBOR_MAX_DEPTH + 3;
    DeepMapSkip(s, i, left - 1);
    SkipContainer(s, i, 1, left, false);
    SkipPlain(s, i + 1, 3, left - 1, false);
    if left >= CBOR_MAX_DEPTH {
      SkipTwo(s, i + 2, k, left - 1);
      SkipPlain(s, k, 1, left - 1, false);
      SkipNothing(s, k + 1, left - 1, false, k + 1);
      SkipNothing(s, k + 1, left, false, k + 1);
    } else if SkipItems(s, i + 2, 2, left - 1, false).Ok? {
      SkipFirst(s, i + 2, 1, left - 1, false);
    }
  }

  lemma ByteBstr(s: seq<byte>, i: nat)
    requires i < |s| && s[i] == 0x40
    ensures DecodeBstr(s, i, false) == Ok([], i + 1)
  {
    hide DecodeHead;
    ByteHead(s, i, false);
  }

  lemma ByteCount(s: seq<byte>, i: nat, major: Major, n: nat)
    requires (major == ARRAY || major == MAP) && i < |s| && n <= 23 && s[i] == major * 32 + n
    requires i + 1 + 2 * n <= |s|
    ensures DecodeContainer(s, i, major, false) == Ok(n, i + 1)
  {
    hide DecodeHead;
    ByteHead(s, i, false);
  }

  lemma ByteLabel(s: seq<byte>, i: nat)
    requires i < |s| && s[i] <= 23
    ensures DecodeLabel(s, i, false) == Ok(IntLabel(s[i]), i + 1)
  {
    hide DecodeHead;
    ByteHead(s, i, false);
  }

  /** The buckets of the deep countersignature. */
  lemma DeepBuckets()
    ensures ProtectedHdr([], false) == Ok([], 0) && Labels([]) == {}
    ensures UnprotectedHdr(DeepCounter(), 2, {}, false)
         == Ok([Entry(IntLabel(0x14), 3, 4, CBOR_MAX_DEPTH + 3)], CBOR_MAX_DEPTH + 3)
  {
    var v := DeepCounter();
    SliceSelf(v);
    hide SkipItems, DecodeHead, SameSlice, Deep, DeepCounter, DecodeContainer, Walk, Labels;
    DeepBytes(v, 0);
    ByteCount(v, 2, MAP, 1);
    ByteLabel(v, 3);
    DeepSkip(CBOR_MAX_DEPTH - 2, v, 4, CBOR_MAX_DEPTH, false);
    NoLabels();
    WalkOneOf(v, 3, Unprotected, {}, IntLabel(0x14), 4, CBOR_MAX_DEPTH + 3);
    OneEntry(Entry(IntLabel(0x14), 3, 4, CBOR_MAX_DEPTH + 3));
  }

  /** The deep countersignature is a full countersignature. */
  lemma DeepIsFull()
    ensures CounterListInfo(DeepCounter()) == Ok(ListInfo(1, 0, false), |DeepCounter()|)
  {
    var v := DeepCounter();
    SliceSelf(v);
    hide DecodeHead, SameSlice, Deep, DeepCounter, DecodeString, DecodeContainer, CounterItems, ProtectedHdr,
         UnprotectedHdr, Labels;
    DeepBytes(v, 0);
    DeepBuckets();
    ByteCount(v, 0, ARRAY, 3);
    ByteBstr(v, 1);
    ByteBstr(v, CBOR_MAX_DEPTH + 3);
  }

  /** How the message is laid out. */
  lemma DeepMessageBytes()
    ensures var s, e := DeepMessage(), CBOR_MAX_DEPTH + 9;
      && |s| == e + 2 && SameSlice(DeepCounter(), 0, s, 5, CBOR_MAX_DEPTH + 4) && s[5..e] == DeepCounter()
      && s[0] == 0xD2 && s[1] == 0x84 && s[2] == 0x40 && s[3] == 0xA1 && s[4] == 0x0B && s[5] == 0x83
      && s[e] == 0x40 && s[e + 1] == 0x40
  {
    hide Deep;
    var s, v := DeepMessage(), DeepCounter();
    assert s[5..5 + |v|] == v == v[0..|v|];
  }

  /** The message parses; the countersignature in it cannot go one level deeper, so
      whatever is attached beside it, the result does not parse. */
  lemma DeepMessageBreaks(ctr: seq<byte>)
    requires Attachable(ctr) && |ctr| <= SIZE_MAX
    ensures ParseTarget(DeepMessage(), None).Ok?
    ensures RoomForFull(DeepMessage(), ParseTarget(DeepMessage(), None).value)
    ensures var s, t := DeepMessage(), ParseTarget(DeepMessage(), None).value;
      |WithFull(s, t, ctr)| <= SIZE_MAX ==> ParseTarget(WithFull(s, t, ctr), None).Err?
  {
    hide *;
    DeepMessageParses();
    var s, t := DeepMessage(), ParseTarget(DeepMessage(), None).value;
    DeepIsGrowable();
    if |WithFull(s, t, ctr)| <= SIZE_MAX {
      FullAttachKeepsEarlier(s, None, ctr);
    }
  }

  lemma DeepMessageParses()
    ensures ParseTarget(DeepMessage(), None).Ok?
    ensures ParseTarget(DeepMessage(), None).value.full == Some(Range(5, CBOR_MAX_DEPTH + 9))
  {
    DeepMessageBytes();
    var s, e := DeepMessage(), CBOR_MAX_DEPTH + 9;
    hide SkipItems, DecodeHead, SameSlice, Deep, DeepCounter, DeepMessage, DecodeString, DecodeContainer, Walk, Labels,
         ParseMaps;
    ByteHead(s, 0, false);
    ByteCount(s, 1, ARRAY, 4);
    ByteBstr(s, 2);
    NoLabels();
    assert ParseFront(s) == Ok(Front(TAG_SIGN1, [], {}), 3);
    DeepMaps();
    ByteBstr(s, e);
    ByteBstr(s, e + 1);
    OneEntry(Entry(IntLabel(COUNTERSIGNATURE_V2), 4, 5, e));
  }

  lemma DeepMaps()
    ensures ParseMaps(DeepMessage(), 3, {})
         == Ok([Entry(IntLabel(COUNTERSIGNATURE_V2), 4, 5, CBOR_MAX_DEPTH + 9)], CBOR_MAX_DEPTH + 9)
  {
    DeepMessageBytes();
    var s, e := DeepMessage(), CBOR_MAX_DEPTH + 9;
    hide SkipItems, DecodeHead, SameSlice, Deep, DeepCounter, DeepMessage, DecodeContainer, Walk, Labels;
    DeepBytes(s, 5);
    ByteCount(s, 3, MAP, 1);
    ByteLabel(s, 4);
    DeepCounterSkip(s, 5, CBOR_MAX_DEPTH);
    assert Value(s, 5, Counter, IntLabel(COUNTERSIGNATURE_V2), false) == Ok((), e);
    WalkOneOf(s, 4, Counter, {}, IntLabel(COUNTERSIGNATURE_V2), 5, e);
    WalkOneOf(s, 4, Unprotected, {}, IntLabel(COUNTERSIGNATURE_V2), 5, e);
    OneEntry(Entry(IntLabel(COUNTERSIGNATURE_V2), 4, 5, e));
  }

  lemma DeepIsGrowable()
    requires ParseTarget(DeepMessage(), None).Ok?
    requires ParseTarget(DeepMessage(), None).value.full == Some(Range(5, CBOR_MAX_DEPTH + 9))
    ensures var s, t := DeepMessage(), ParseTarget(DeepMessage(), None).value;
      RoomForFull(s, t) && !NestsDeeper(s, t) && |s| <= SIZE_MAX
  {
    hide ParseTarget, CounterListInfo, DeepCounter, DeepMessage, SkipItems, SameSlice;
    DeepMessageBytes();
    DeepIsFull();
    DeepCannotNest();
  }

  lemma DeepCannotNest()
    requires CounterListInfo(DeepCounter()).Ok? && !CounterListInfo(DeepCounter()).value.isList
    ensures !CanNest(DeepCounter())
  {
    hide DeepCounter, SkipItems, SameSlice, CounterListInfo, DeepMessage;
    SliceSelf(DeepCounter());
    DeepMessageBytes();
    DeepCounterSkip(DeepCounter(), 0, CBOR_MAX_DEPTH - 1);
  }
}
