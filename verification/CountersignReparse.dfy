/**
 Attaching a countersignature keeps the message: what is written parses to the same
 signed fields, keeps every other map entry byte for byte and in order, and keeps all
 earlier countersignatures at their indices.
 */
module CountersignReparse {
  import opened Wire
  import opened Cbor
  import opened CborRoundTrip
  import opened Header
  import opened HeaderLemmas
  import opened Countersign
  import opened CountersignLemmas
  import opened CountersignLists

  // ----- The two walks over the unprotected map -----

  /** A typed header value is one item. */
  lemma ValueIsItem(s: seq<byte>, i: nat, lbl: Label)
    requires Value(s, i, Unprotected, lbl, false).Ok?
    ensures Skip(s, i, false).Ok? && Skip(s, i, false).next == Value(s, i, Unprotected, lbl, false).next
  {
    hide DecodeHead, SkipItems, PeekType;
    if lbl == IntLabel(ALG) {
      if PeekType(s, i) != TSTR {
        SkipOfHead(s, i, CBOR_MAX_DEPTH, false);
      }
    } else if lbl == IntLabel(CONTENT_TYPE) {
      if PeekType(s, i) != TSTR {
        SkipOfHead(s, i, CBOR_MAX_DEPTH, false);
      }
    } else if lbl == IntLabel(KID) || lbl == IntLabel(IV) || lbl == IntLabel(PARTIAL_IV) {
      SkipOfHead(s, i, CBOR_MAX_DEPTH, false);
    }
  }

  lemma CounterIsItem(s: seq<byte>, i: nat, lbl: Label)
    requires Value(s, i, Counter, lbl, false).Ok?
    ensures Skip(s, i, false).Ok? && Skip(s, i, false).next == Value(s, i, Counter, lbl, false).next
  {
    hide Skip, PeekType;
  }

  /** Locating countersignatures and decoding the header see the same entries. */
  lemma {:induction false} SameEntries(s: seq<byte>, i: nat, n: nat, seen: set<Label>)
    requires Walk(s, i, n, Counter, seen, false).Ok? && Walk(s, i, n, Unprotected, seen, false).Ok?
    ensures Walk(s, i, n, Counter, seen, false) == Walk(s, i, n, Unprotected, seen, false)
    decreases n
  {
    hide *;
    if n == 0 {
      WalkNone(s, i, Counter, seen, false);
      WalkNone(s, i, Unprotected, seen, false);
    } else {
      WalkStep(s, i, n, Counter, seen, false);
      WalkStep(s, i, n, Unprotected, seen, false);
      var x := Walk(s, i, n, Counter, seen, false).value[0];
      CounterIsItem(s, x.valueAt, x.lbl);
      ValueIsItem(s, x.valueAt, x.lbl);
      SameEntries(s, x.end, n - 1, seen + {x.lbl});
    }
  }

  /** The unprotected map is accepted when both walks accept it: the check that they end at
      one place never fails. */
  lemma MapsIff(s: seq<byte>, i: nat, prot: set<Label>)
    ensures ParseMaps(s, i, prot).Ok?
       <==> WalkMap(s, i, Counter, prot, false).Ok? && UnprotectedHdr(s, i, prot, false).Ok?
    ensures ParseMaps(s, i, prot).Ok? ==>
      && ParseMaps(s, i, prot) == WalkMap(s, i, Counter, prot, false)
      && ParseMaps(s, i, prot) == WalkMap(s, i, Unprotected, prot, false)
      && ParseMaps(s, i, prot) == UnprotectedHdr(s, i, prot, false)
  {
    hide DecodeContainer, Walk, Labels;
    WalkedMap(s, i, Counter, prot);
    WalkedMap(s, i, Unprotected, prot);
    if WalkMap(s, i, Counter, prot, false).Ok? && UnprotectedHdr(s, i, prot, false).Ok? {
      var n, j := DecodeMap(s, i, false).value, DecodeMap(s, i, false).next;
      SameEntries(s, j, n, prot);
    }
  }

  /** The rule of the unprotected bucket, on its labels. */
  lemma UnprotectedRule(s: seq<byte>, i: nat, prot: set<Label>)
    ensures var r := WalkMap(s, i, Unprotected, prot, false);
      UnprotectedHdr(s, i, prot, false)
      == if r.Err? then Err(r.error)
         else if IvClash(prot + Labels(r.value)) then Err(CoseBadHdr) else r
  {
    hide WalkMap, Labels;
  }

  predicate IvClash(ls: set<Label>) {
    IntLabel(IV) in ls && IntLabel(PARTIAL_IV) in ls
  }

  // ----- What a message keeps -----

  /** The entries of the unprotected map of a message. */
  function Entries(s: seq<byte>): (es: seq<Entry>) {
    var f := ParseFront(s);
    if f.Err? then []
    else
      var m := ParseMaps(s, f.next, f.value.labels);
      if m.Err? then [] else m.value
  }

  /** Entry `x` of one buffer is entry `y` of another: the same label and the same bytes. */
  ghost predicate SameEntry(s: seq<byte>, x: Entry, u: seq<byte>, y: Entry) {
    && x.lbl == y.lbl && 0 <= x.at < x.valueAt < x.end && 0 <= y.at < y.valueAt < y.end
    && y.valueAt - y.at == x.valueAt - x.at
    && SameSlice(s, x.at, u, y.at, x.end - x.at) && y.end - y.at == x.end - x.at
  }

  /** The bytes of a located value. */
  function ValueBytes(s: seq<byte>, r: Option<Range>): (b: Option<seq<byte>>) {
    if r.Some? && 0 <= r.value.start <= r.value.end <= |s| then Some(s[r.value.start..r.value.end]) else None
  }

  /** The signed fields are the same. */
  predicate SameFields(t: Target, t': Target) {
    t.tag == t'.tag && t.bodyProtected == t'.bodyProtected && t.payload == t'.payload && t.other == t'.other
  }

  /** The index of an entry with a label. */
  lemma EntryIndex(es: seq<Entry>, lbl: Label) returns (k: nat)
    requires DistinctLabels(es) && lbl in Labels(es)
    ensures k < |es| && es[k].lbl == lbl && Find(es, lbl) == Some(es[k])
  {
    k :| 0 <= k < |es| && es[k].lbl == lbl;
    FindUnique(es, k);
  }

  /** A located value keeps its bytes when its entry does. */
  lemma LocatedKept(s: seq<byte>, es: seq<Entry>, u: seq<byte>, fs: seq<Entry>, n: i64)
    requires DistinctLabels(es) && DistinctLabels(fs) && |es| <= |fs|
    requires IntLabel(n) in Labels(fs) ==> IntLabel(n) in Labels(es)
    requires forall k :: 0 <= k < |es| && es[k].lbl == IntLabel(n) ==> SameEntry(s, es[k], u, fs[k])
    ensures ValueBytes(u, Located(fs, n)) == ValueBytes(s, Located(es, n))
    ensures Located(fs, n).Some? <==> Located(es, n).Some?
  {
    hide Labels, Find, DistinctLabels, SameEntry;
    if IntLabel(n) in Labels(es) {
      var k := EntryIndex(es, IntLabel(n));
      assert SameEntry(s, es[k], u, fs[k]);
      SameValue(s, es[k], u, fs[k]);
      FindUnique(fs, k);
    }
  }

  lemma SameValue(s: seq<byte>, x: Entry, u: seq<byte>, y: Entry)
    requires SameEntry(s, x, u, y)
    ensures x.lbl == y.lbl
    ensures 0 <= x.valueAt <= x.end <= |s| && 0 <= y.valueAt <= y.end <= |u|
    ensures s[x.valueAt..x.end] == u[y.valueAt..y.end]
  {
    SameSlicePart(s, x.at, u, y.at, x.end - x.at, x.valueAt - x.at, x.end - x.valueAt);
  }

  /** Entries that moved by `d` bytes are the same entries. */
  lemma MovedEntry(s: seq<byte>, x: Entry, u: seq<byte>, d: int, lo: nat, n: nat)
    requires lo <= x.at < x.valueAt < x.end <= lo + n && lo + d >= 0
    requires SameSlice(s, lo, u, lo + d, n)
    ensures SameEntry(s, x, u, Entry(x.lbl, x.at + d, x.valueAt + d, x.end + d))
  {
    SameSlicePart(s, lo, u, lo + d, n, x.at - lo, x.end - x.at);
  }

  /** The parts of a parsed message. */
  lemma TargetParts(s: seq<byte>, detached: Option<seq<byte>>)
    requires ParseTarget(s, detached).Ok?
    ensures ParseFront(s).Ok?
    ensures
      var f := ParseFront(s);
      var m := ParseMaps(s, f.next, f.value.labels);
      && m.Ok? && f.next < m.next <= |s|
      && ParseBack(s, m.next, f.value.tag, detached).Ok?
      && Entries(s) == m.value
      && ParseTarget(s, detached)
         == Ok(TargetOf(s, f.value, f.next, m.value, m.next, ParseBack(s, m.next, f.value.tag, detached).value.0,
                        ParseBack(s, m.next, f.value.tag, detached).value.1), |s|)
    ensures var f, t := ParseFront(s), ParseTarget(s, detached).value;
      && t.tag == f.value.tag && t.bodyProtected == f.value.bodyProtected && t.mapStart == f.next
      && t.mapEnd == ParseMaps(s, f.next, f.value.labels).next
      && t.mapContentStart == MapContentStart(s, f.next)
      && t.mapCount == |Entries(s)|
      && t.full == Located(Entries(s), COUNTERSIGNATURE_V2)
      && t.abbreviated == Located(Entries(s), COUNTERSIGNATURE0_V2)
      && t.legacyFull == Located(Entries(s), COUNTERSIGNATURE_LEGACY)
      && t.legacyAbbreviated == Located(Entries(s), COUNTERSIGNATURE0_LEGACY)
  {
    hide ParseFront, ParseMaps, ParseBack, Located, MapContentStart;
  }

  /** A message with the same front and back and an accepted map in between parses to the
      same signed fields. */
  lemma TargetAgain(s: seq<byte>, detached: Option<seq<byte>>, u: seq<byte>, fs: seq<Entry>, e: nat)
    requires ParseTarget(s, detached).Ok? && |s| <= |u| <= SIZE_MAX
    requires var t := ParseTarget(s, detached).value; var f := ParseFront(s);
      && f.Ok?
      && t.mapEnd <= |s| && SameSlice(s, 0, u, 0, t.mapStart)
      && ParseMaps(u, t.mapStart, f.value.labels) == Ok(fs, e)
      && SameSlice(s, t.mapEnd, u, e, |s| - t.mapEnd) && e + (|s| - t.mapEnd) == |u|
    ensures ParseTarget(u, detached).Ok? && Entries(u) == fs
    ensures SameFields(ParseTarget(s, detached).value, ParseTarget(u, detached).value)
  {
    hide ParseFront, ParseMaps, ParseBack, Located, MapContentStart, SameSlice;
    TargetParts(s, detached);
    var f, t := ParseFront(s), ParseTarget(s, detached).value;
    FrontFraming(s, u);
    BackFraming(s, t.mapEnd, t.tag, detached, u, e);
  }

  // ----- A new entry -----

  /** The values that may be attached under a label: a list-shaped item, or a byte string. */
  predicate ValueFor(lbl: i64, value: seq<byte>) {
    && Skip(value, 0, false).Ok? && Skip(value, 0, false).next == |value|
    && ((lbl == COUNTERSIGNATURE_V2 && PeekType(value, 0) == ARRAY)
        || (lbl == COUNTERSIGNATURE0_V2 && PeekType(value, 0) == BSTR))
  }

  lemma ValueAccepted(lbl: i64, value: seq<byte>, u: seq<byte>, i: nat)
    requires ValueFor(lbl, value) && |u| <= SIZE_MAX && SameSlice(value, 0, u, i, |value|)
    ensures Value(u, i, Counter, IntLabel(lbl), false) == Ok((), i + |value|)
    ensures Value(u, i, Unprotected, IntLabel(lbl), false) == Ok((), i + |value|)
  {
    hide SkipItems, SameSlice;
    ItemFraming(value, 0, false, u, i);
    PeekFraming(value, 0, u, i, |value|);
    hide PeekType;
    assert Skip(u, i, false).value == ();
  }

  /** How a message with a new entry is laid out. */
  lemma EntryLayout(s: seq<byte>, t: Target, lbl: i64, value: seq<byte>)
    requires t.mapStart <= t.mapContentStart <= t.mapEnd <= |s| && t.mapCount + 1 < U64_BOUND
    ensures var u := WithEntry(s, t, lbl, value);
      var j := t.mapStart + HeadSize(t.mapCount + 1);
      var at := j + (t.mapEnd - t.mapContentStart);
      var valueAt := at + |EncodeInt(lbl)|;
      var end := valueAt + |value|;
      && end + (|s| - t.mapEnd) == |u|
      && SameSlice(s, 0, u, 0, t.mapStart)
      && SameSlice(EncodeHead(MAP, t.mapCount + 1), 0, u, t.mapStart, HeadSize(t.mapCount + 1))
      && SameSlice(s, t.mapContentStart, u, j, t.mapEnd - t.mapContentStart)
      && SameSlice(EncodeInt(lbl), 0, u, at, |EncodeInt(lbl)|)
      && SameSlice(value, 0, u, valueAt, |value|)
      && SameSlice(s, t.mapEnd, u, end, |s| - t.mapEnd)
  {
    hide EncodeHead, EncodeInt, HeadSize, SameSlice;
    var head := EncodeHead(MAP, t.mapCount + 1);
    var front, body, back := s[..t.mapStart], s[t.mapContentStart..t.mapEnd], s[t.mapEnd..];
    var u := WithEntry(s, t, lbl, value);
    var l := EncodeInt(lbl);
    assert u == front + head + body + l + value + back;
    SixParts(front, head, body, l, value, back);
    assert front == s[0..t.mapStart] && back == s[t.mapEnd..|s|];
    SliceIsSame(s, 0, u, 0, front);
    SliceIsSame(s, t.mapContentStart, u, t.mapStart + |head|, body);
    SliceIsSame(s, t.mapEnd, u, |u| - |back|, back);
  }

  lemma SixParts(a: seq<byte>, b: seq<byte>, c: seq<byte>, d: seq<byte>, e: seq<byte>, f: seq<byte>)
    ensures var g := a + b + c + d + e + f;
      var j, k, l := |a| + |b|, |a| + |b| + |c|, |a| + |b| + |c| + |d|;
      && SameSlice(a, 0, g, 0, |a|) && SameSlice(b, 0, g, |a|, |b|) && SameSlice(c, 0, g, j, |c|)
      && SameSlice(d, 0, g, k, |d|) && SameSlice(e, 0, g, l, |e|) && SameSlice(f, 0, g, l + |e|, |f|)
  {
    FourParts(a, b, c, d);
    var h := a + b + c + d;
    FourParts(h, e, f, []);
    var g := a + b + c + d + e + f;
    assert g == h + e + f + [];
    Within(a, h, 0, g, 0);
    Within(b, h, |a|, g, 0);
    Within(c, h, |a| + |b|, g, 0);
    Within(d, h, |a| + |b| + |c|, g, 0);
  }

  /** Where the unprotected map of a parsed message lies. */
  lemma MapPlace(s: seq<byte>, detached: Option<seq<byte>>)
    requires ParseTarget(s, detached).Ok? && |s| <= SIZE_MAX
    ensures var t := ParseTarget(s, detached).value;
      && ParseFront(s).Ok? && ParseFront(s).next == t.mapStart
      && t.mapStart < t.mapContentStart <= t.mapEnd <= |s|
      && DecodeMap(s, t.mapStart, false) == Ok(t.mapCount, t.mapContentStart)
      && t.mapCount == |Entries(s)| <= MAX_MAP_ITEMS && t.mapCount + 1 < U64_BOUND
      && t.mapContentStart == t.mapStart + HeadSize(t.mapCount)
      && WalkMap(s, t.mapStart, Counter, ParseFront(s).value.labels, false) == Ok(Entries(s), t.mapEnd)
      && WalkMap(s, t.mapStart, Unprotected, ParseFront(s).value.labels, false) == Ok(Entries(s), t.mapEnd)
      && !IvClash(ParseFront(s).value.labels + Labels(Entries(s)))
      && DistinctLabels(Entries(s))
  {
    hide ParseFront, ParseMaps, ParseBack, Located, DecodeContainer, Walk, Labels, WalkMap, UnprotectedHdr, ProtectedHdr;
    TargetParts(s, detached);
    var f := ParseFront(s);
    MapsIff(s, f.next, f.value.labels);
    UnprotectedRule(s, f.next, f.value.labels);
    WalkedMap(s, f.next, Counter, f.value.labels);
    var m := DecodeMap(s, f.next, false);
    MapHeadRoom(s, f.next);
    MapHeadLength(s, f.next);
    WalkDistinct(s, m.next, m.value, Counter, f.value.labels, false);
  }

  lemma MapHeadLength(s: seq<byte>, i: nat)
    requires DecodeMap(s, i, false).Ok?
    ensures DecodeMap(s, i, false).value < U64_BOUND
    ensures DecodeMap(s, i, false).next == i + HeadSize(DecodeMap(s, i, false).value)
  {
    hide DecodeContainer;
    ContainerHeadLength(s, i, MAP);
  }

  lemma MapHeadRoom(s: seq<byte>, i: nat)
    requires DecodeMap(s, i, false).Ok? && |s| <= SIZE_MAX
    ensures DecodeMap(s, i, false).value + 1 < U64_BOUND
  {
    hide HeadArgument;
  }

  /** Both walks over a map with a new entry, and the rule of the bucket. */
  lemma AppendedMaps(s: seq<byte>, i: nat, prot: set<Label>, es: seq<Entry>, e: nat, j: nat, u: seq<byte>,
                     lbl: i64, value: seq<byte>)
    requires DecodeMap(s, i, false) == Ok(|es|, j) && j <= e && |es| < MAX_MAP_ITEMS && |es| + 1 < U64_BOUND
    requires WalkMap(s, i, Counter, prot, false) == Ok(es, e) && WalkMap(s, i, Unprotected, prot, false) == Ok(es, e)
    requires IntLabel(lbl) !in prot + Labels(es) && !IvClash(prot + Labels(es)) && ValueFor(lbl, value)
    requires |u| <= SIZE_MAX && SameSlice(EncodeHead(MAP, |es| + 1), 0, u, i, HeadSize(|es| + 1))
    requires var h := HeadSize(|es| + 1);
      && SameSlice(s, j, u, i + h, e - j)
      && SameSlice(EncodeInt(lbl), 0, u, i + h + (e - j), |EncodeInt(lbl)|)
      && SameSlice(value, 0, u, i + h + (e - j) + |EncodeInt(lbl)|, |value|)
    ensures var h, l := HeadSize(|es| + 1), |EncodeInt(lbl)|;
      var at := i + h + (e - j);
      ParseMaps(u, i, prot)
      == Ok(Move(es, i + h - j) + [Entry(IntLabel(lbl), at, at + l, at + l + |value|)], at + l + |value|)
  {
    hide DecodeMap, WalkMap, Labels, Value, DecodeLabel, EncodeHead, EncodeInt, SameSlice, HeadSize, Move, ParseMaps,
         UnprotectedHdr, PeekType, SkipItems;
    var h, l := HeadSize(|es| + 1), |EncodeInt(lbl)|;
    var at := i + h + (e - j);
    IntRoundTrip(lbl, false, u, at);
    ValueAccepted(lbl, value, u, at + l);
    MapAppend(s, i, Counter, prot, u, IntLabel(lbl), at + l);
    MapAppend(s, i, Unprotected, prot, u, IntLabel(lbl), at + l);
    var x := Entry(IntLabel(lbl), at, at + l, at + l + |value|);
    AppendedLabels(es, i + h - j, x);
    UnprotectedRule(u, i, prot);
    MapsIff(u, i, prot);
  }

  lemma AppendedLabels(es: seq<Entry>, d: int, x: Entry)
    ensures Labels(Move(es, d) + [x]) == Labels(es) + {x.lbl}
  {
    hide Labels, Move;
    MoveLabels(es, d);
    LabelsJoin(Move(es, d), [x]);
    OneEntry(x);
  }

  // ----- The two ways to attach -----

  /** The entries `es` of one message are, in order, among the entries of another, entry
      `skip` apart. */
  ghost predicate KeepsEntries(s: seq<byte>, es: seq<Entry>, u: seq<byte>, fs: seq<Entry>, skip: int) {
    |es| <= |fs| && forall k :: 0 <= k < |es| && k != skip ==> SameEntry(s, es[k], u, fs[k])
  }

  lemma EntryInside(s: seq<byte>, detached: Option<seq<byte>>, k: nat)
    requires ParseTarget(s, detached).Ok? && |s| <= SIZE_MAX && k < |Entries(s)|
    ensures var t, x := ParseTarget(s, detached).value, Entries(s)[k];
      t.mapContentStart <= x.at < x.valueAt < x.end <= t.mapEnd
      && Value(s, x.valueAt, Counter, x.lbl, false).Ok? && Value(s, x.valueAt, Counter, x.lbl, false).next == x.end
  {
    hide *;
    MapPlace(s, detached);
    var t, prot := ParseTarget(s, detached).value, ParseFront(s).value.labels;
    WalkedMap(s, t.mapStart, Counter, prot);
    WalkLayout(s, t.mapContentStart, t.mapCount, Counter, prot, false, k);
  }

  /** The message with one more entry parses to the same signed fields; its map has the
      entries it had, byte for byte and in order, and the new one behind them. */
  lemma EntryReparse(s: seq<byte>, detached: Option<seq<byte>>, lbl: i64, value: seq<byte>)
    requires ParseTarget(s, detached).Ok? && |s| <= SIZE_MAX && ValueFor(lbl, value)
    requires ParseTarget(s, detached).value.mapCount < MAX_MAP_ITEMS && IntLabel(lbl) !in Labels(Entries(s))
    requires |WithEntry(s, ParseTarget(s, detached).value, lbl, value)| <= SIZE_MAX
    ensures var u := WithEntry(s, ParseTarget(s, detached).value, lbl, value);
      && ParseTarget(u, detached).Ok?
      && SameFields(ParseTarget(s, detached).value, ParseTarget(u, detached).value)
      && |Entries(u)| == |Entries(s)| + 1 && KeepsEntries(s, Entries(s), u, Entries(u), -1)
      && var x := Entries(u)[|Entries(s)|];
         x.lbl == IntLabel(lbl) && 0 <= x.valueAt <= x.end <= |u| && u[x.valueAt..x.end] == value
  {
    hide *;
    MapPlace(s, detached);
    CounterLabelFree(s, lbl, value);
    HeadGrows(ParseTarget(s, detached).value.mapCount);
    var t, es, prot := ParseTarget(s, detached).value, Entries(s), ParseFront(s).value.labels;
    var u := WithEntry(s, t, lbl, value);
    EntryLayout(s, t, lbl, value);
    var d := t.mapStart + HeadSize(t.mapCount + 1) - t.mapContentStart;
    var at := t.mapEnd + d;
    var valueAt := at + |EncodeInt(lbl)|;
    AppendedMaps(s, t.mapStart, prot, es, t.mapEnd, t.mapContentStart, u, lbl, value);
    var x := Entry(IntLabel(lbl), at, valueAt, valueAt + |value|);
    TargetAgain(s, detached, u, Move(es, d) + [x], x.end);
    forall k | 0 <= k < |es|
      ensures SameEntry(s, es[k], u, (Move(es, d) + [x])[k])
    {
      EntryInside(s, detached, k);
      MovedEntry(s, es[k], u, d, t.mapContentStart, t.mapEnd - t.mapContentStart);
    }
    SameSliceIs(value, 0, u, valueAt, |value|);
    assert value[0..|value|] == value;
    KeepsIs(s, es, u, Move(es, d) + [x]);
  }

  lemma KeepsIs(s: seq<byte>, es: seq<Entry>, u: seq<byte>, fs: seq<Entry>)
    requires |es| <= |fs| && forall k :: 0 <= k < |es| ==> SameEntry(s, es[k], u, fs[k])
    ensures KeepsEntries(s, es, u, fs, -1)
  {
  }

  /** A countersignature label is never in the protected bucket of a parsed message. */
  lemma CounterLabelFree(s: seq<byte>, lbl: i64, value: seq<byte>)
    requires ParseFront(s).Ok? && ValueFor(lbl, value)
    ensures IntLabel(lbl) !in ParseFront(s).value.labels && lbl != CRIT
  {
    hide DecodeHead, ProtectedHdr, DecodeArray, Labels, Skip, PeekType;
  }

  /** A strictly decoded head is as long as the one that is written. */
  lemma ContainerHeadLength(s: seq<byte>, i: nat, major: Major)
    requires (major == ARRAY || major == MAP) && DecodeContainer(s, i, major, false).Ok?
    ensures DecodeContainer(s, i, major, false).value < U64_BOUND
    ensures DecodeContainer(s, i, major, false).next == i + HeadSize(DecodeContainer(s, i, major, false).value)
  {
    hide DecodeHead;
    StrictIsCanonical(s, i);
  }

  lemma HeadGrows(n: nat)
    requires n + 1 < U64_BOUND
    ensures HeadSize(n) <= HeadSize(n + 1) <= HeadSize(n) + 4
  {
  }

  // ----- A value that grows -----

  /** The value under label 11 that one more countersignature can join. */
  predicate Growable(s: seq<byte>, r: Range) {
    && 0 <= r.start <= r.end <= |s|
    && CounterListInfo(s[r.start..r.end]).Ok?
    && CounterListInfo(s[r.start..r.end]).value.count < MAX_MAP_ITEMS
  }

  /** How a message with a grown value is laid out. */
  lemma GrownMessageLayout(s: seq<byte>, r: Range, ctr: seq<byte>)
    requires Growable(s, r) && |s| <= SIZE_MAX
    ensures var v := s[r.start..r.end];
      var g, u := GrownValue(v, CounterListInfo(v).value, ctr), WithGrownValue(s, r, ctr);
      var end := r.start + |g|;
      && |v| <= |g| && end + (|s| - r.end) == |u|
      && SameSlice(s, 0, u, 0, r.start) && SameSlice(g, 0, u, r.start, |g|)
      && u[r.start..end] == g
      && SameSlice(s, r.end, u, end, |s| - r.end)
  {
    hide *;
    WithGrownIs(s, r, ctr);
    var v := s[r.start..r.end];
    GrownIsLonger(v, ctr);
    var g, u := GrownValue(v, CounterListInfo(v).value, ctr), WithGrownValue(s, r, ctr);
    var front, back := s[..r.start], s[r.end..];
    ThreeParts(front, g, back);
    assert s[0..r.start] == front[0..|front|] && back[0..|back|] == back && s[r.end..|s|] == back;
    SliceIsSame(s, 0, u, 0, front);
    SliceIsSame(s, r.end, u, r.start + |g|, back);
    SameSliceIs(g, 0, u, r.start, |g|);
    assert g[0..|g|] == g;
  }

  lemma SliceIsSame(s: seq<byte>, i: nat, u: seq<byte>, j: nat, part: seq<byte>)
    requires i + |part| <= |s| && s[i..i + |part|] == part && SameSlice(part, 0, u, j, |part|)
    ensures SameSlice(s, i, u, j, |part|)
  {
  }

  lemma WithGrownIs(s: seq<byte>, r: Range, ctr: seq<byte>)
    requires Growable(s, r)
    ensures 0 <= r.start <= r.end <= |s|
    ensures CounterListInfo(s[r.start..r.end]).Ok?
    ensures CounterListInfo(s[r.start..r.end]).value.count < MAX_MAP_ITEMS
    ensures |s| <= SIZE_MAX ==> |s[r.start..r.end]| <= SIZE_MAX
    ensures var v := s[r.start..r.end];
      WithGrownValue(s, r, ctr) == s[..r.start] + GrownValue(v, CounterListInfo(v).value, ctr) + s[r.end..]
  {
    hide GrownValue, CounterListInfo;
  }

  lemma GrownIsLonger(v: seq<byte>, ctr: seq<byte>)
    requires CounterListInfo(v).Ok? && CounterListInfo(v).value.count < MAX_MAP_ITEMS && |v| <= SIZE_MAX
    ensures |GrownValue(v, CounterListInfo(v).value, ctr)| >= |v| + |ctr|
  {
    hide *;
    var info := CounterListInfo(v).value;
    if info.isList {
      InfoOfList(v);
      ListHeadLength(v);
    } else {
      InfoOfSingle(v);
    }
    SmallCount(info.count, v);
    GrownLayoutSmall(v, ctr);
  }

  lemma GrownLayoutSmall(v: seq<byte>, ctr: seq<byte>)
    requires CounterListInfo(v).Ok? && CounterListInfo(v).value.count < MAX_MAP_ITEMS
    requires CounterListInfo(v).value.count + 1 < U64_BOUND
    requires var info := CounterListInfo(v).value;
      info.isList ==> info.contentOffset <= HeadSize(info.count + 1)
    ensures |GrownValue(v, CounterListInfo(v).value, ctr)| >= |v| + |ctr|
  {
    hide CounterListInfo, EncodeHead;
  }

  lemma ListHeadLength(v: seq<byte>)
    requires DecodeArray(v, 0, false).Ok? && |v| <= SIZE_MAX
    ensures var n := DecodeArray(v, 0, false).value;
      n + 1 < U64_BOUND && DecodeArray(v, 0, false).next <= HeadSize(n + 1)
  {
    hide DecodeHead;
    ContainerHeadLength(v, 0, ARRAY);
    HeadGrows(DecodeArray(v, 0, false).value);
  }

  /** The entry of a located countersignature. */
  lemma FullEntry(s: seq<byte>, detached: Option<seq<byte>>) returns (k: nat)
    requires ParseTarget(s, detached).Ok? && |s| <= SIZE_MAX && ParseTarget(s, detached).value.full.Some?
    ensures var t := ParseTarget(s, detached).value; var r := t.full.value;
      && k < |Entries(s)| && Entries(s)[k].lbl == IntLabel(COUNTERSIGNATURE_V2)
      && r == Range(Entries(s)[k].valueAt, Entries(s)[k].end)
      && t.mapContentStart <= Entries(s)[k].at < r.start < r.end <= t.mapEnd <= |s|
      && |s[r.start..r.end]| <= SIZE_MAX
      && Skip(s[r.start..r.end], 0, false) == Ok((), r.end - r.start)
  {
    hide *;
    MapPlace(s, detached);
    TargetParts(s, detached);
    LocatedIs(Entries(s), COUNTERSIGNATURE_V2);
    k := EntryIndex(Entries(s), IntLabel(COUNTERSIGNATURE_V2));
    EntryInside(s, detached, k);
    var x := Entries(s)[k];
    CounterIsItem(s, x.valueAt, x.lbl);
    var v := s[x.valueAt..x.end];
    WholeSlice(s, x.valueAt, x.end);
    ItemFraming(s, x.valueAt, false, v, 0);
    assert Skip(v, 0, false).value == ();
  }

  lemma LocatedIs(es: seq<Entry>, n: i64)
    ensures Located(es, n)
         == match Find(es, IntLabel(n)) { case None => None case Some(e) => Some(Range(e.valueAt, e.end)) }
    ensures Located(es, n).None? <==> IntLabel(n) !in Labels(es)
  {
    hide Find, Labels;
  }

  /** Both walks over a map with a grown value. */
  lemma GrownMaps(s: seq<byte>, i: nat, prot: set<Label>, es: seq<Entry>, e: nat, k: nat, u: seq<byte>, end: nat)
    requires WalkMap(s, i, Counter, prot, false) == Ok(es, e) && WalkMap(s, i, Unprotected, prot, false) == Ok(es, e)
    requires !IvClash(prot + Labels(es)) && |u| <= SIZE_MAX
    requires k < |es| && i < es[k].at < es[k].valueAt < es[k].end <= e
    requires es[k].lbl == IntLabel(COUNTERSIGNATURE_V2) && es[k].valueAt < end
    requires SameSlice(s, i, u, i, es[k].valueAt - i) && SameSlice(s, es[k].end, u, end, e - es[k].end)
    requires Skip(u, es[k].valueAt, false) == Ok((), end) && PeekType(u, es[k].valueAt) == ARRAY
    ensures ParseMaps(u, i, prot) == Ok(Replaced(es, k, end), end + (e - es[k].end))
  {
    hide WalkMap, Labels, Walk, SameSlice, ParseMaps, UnprotectedHdr, PeekType, SkipItems, Replaced, Skip;
    MapReplace(s, i, Counter, prot, es, e, k, u, end);
    MapReplace(s, i, Unprotected, prot, es, e, k, u, end);
    ReplacedLabels(es, k, end);
    UnprotectedRule(u, i, prot);
    MapsIff(u, i, prot);
  }

  lemma ReplacedAt(es: seq<Entry>, k: nat, end: nat, m: nat)
    requires k < |es| && m < |es|
    ensures var d := if m > k then end - es[k].end else 0;
      m != k ==> Replaced(es, k, end)[m] == Entry(es[m].lbl, es[m].at + d, es[m].valueAt + d, es[m].end + d)
    ensures Replaced(es, k, end)[k] == Entry(es[k].lbl, es[k].at, es[k].valueAt, end)
  {
  }

  /** The value under label 11 of a parsed message. */
  function FullValue(s: seq<byte>, r: Range): (v: seq<byte>)
    ensures |v| <= |s|
  {
    if 0 <= r.start <= r.end <= |s| then s[r.start..r.end] else []
  }

  lemma FullValueIs(s: seq<byte>, r: Range)
    requires Growable(s, r)
    ensures 0 <= r.start <= r.end <= |s| && FullValue(s, r) == s[r.start..r.end]
    ensures CounterListInfo(FullValue(s, r)).Ok? && CounterListInfo(FullValue(s, r)).value.count < MAX_MAP_ITEMS
  {
    hide CounterListInfo;
  }

  /** The message whose countersignature value grew parses to the same signed fields; its
      map has the entries it had, byte for byte and in order, the grown value apart. */
  lemma GrowReparse(s: seq<byte>, detached: Option<seq<byte>>, ctr: seq<byte>) returns (k: nat)
    requires ParseTarget(s, detached).Ok? && |s| <= SIZE_MAX && ParseTarget(s, detached).value.full.Some?
    requires var r := ParseTarget(s, detached).value.full.value;
      Growable(s, r) && |WithGrownValue(s, r, ctr)| <= SIZE_MAX && CanNest(FullValue(s, r))
    requires Attachable(ctr)
    ensures var r := ParseTarget(s, detached).value.full.value; var u := WithGrownValue(s, r, ctr);
      var g := GrownValue(FullValue(s, r), CounterListInfo(FullValue(s, r)).value, ctr);
      && ParseTarget(u, detached).Ok?
      && SameFields(ParseTarget(s, detached).value, ParseTarget(u, detached).value)
      && |Entries(u)| == |Entries(s)| && k < |Entries(s)| && KeepsEntries(s, Entries(s), u, Entries(u), k)
      && Entries(s)[k].lbl == Entries(u)[k].lbl == IntLabel(COUNTERSIGNATURE_V2)
      && Entries(u)[k].valueAt == r.start && Entries(u)[k].end == r.start + |g| <= |u|
      && u[r.start..r.start + |g|] == g
  {
    hide *;
    k := FullEntry(s, detached);
    MapPlace(s, detached);
    var t, es, prot := ParseTarget(s, detached).value, Entries(s), ParseFront(s).value.labels;
    var r := t.full.value;
    FullValueIs(s, r);
    WithGrownIs(s, r, ctr);
    GrownMessageLayout(s, r, ctr);
    var v := FullValue(s, r);
    var g, u := GrownValue(v, CounterListInfo(v).value, ctr), WithGrownValue(s, r, ctr);
    var end := r.start + |g|;
    GrownNests(v, ctr);
    GrownAccepted(v, ctr, u, r.start);
    SameSlicePart(s, 0, u, 0, r.start, t.mapStart, r.start - t.mapStart);
    SameSlicePart(s, 0, u, 0, r.start, 0, t.mapStart);
    SameSlicePart(s, r.end, u, end, |s| - r.end, 0, t.mapEnd - r.end);
    SameSlicePart(s, r.end, u, end, |s| - r.end, t.mapEnd - r.end, |s| - t.mapEnd);
    GrownMaps(s, t.mapStart, prot, es, t.mapEnd, k, u, end);
    TargetAgain(s, detached, u, Replaced(es, k, end), end + (t.mapEnd - r.end));
    forall m | 0 <= m < |es| && m != k
      ensures SameEntry(s, es[m], u, Replaced(es, k, end)[m])
    {
      ReplacedKeeps(s, detached, u, k, end, m);
    }
    ReplacedAt(es, k, end, k);
    KeepsButOne(s, es, u, Replaced(es, k, end), k);
  }

  lemma KeepsButOne(s: seq<byte>, es: seq<Entry>, u: seq<byte>, fs: seq<Entry>, k: nat)
    requires |es| == |fs| && forall m :: 0 <= m < |es| && m != k ==> SameEntry(s, es[m], u, fs[m])
    ensures KeepsEntries(s, es, u, fs, k)
  {
  }

  /** A grown value is skipped to its end, and is an array. */
  lemma GrownAccepted(v: seq<byte>, ctr: seq<byte>, u: seq<byte>, i: nat)
    requires CounterListInfo(v).Ok? && CounterListInfo(v).value.count < MAX_MAP_ITEMS && |u| <= SIZE_MAX
    requires Skip(v, 0, false) == Ok((), |v|) && |v| <= SIZE_MAX && Attachable(ctr)
    requires var g := GrownValue(v, CounterListInfo(v).value, ctr);
      |g| <= SIZE_MAX && Skip(g, 0, false) == Ok((), |g|) && SameSlice(g, 0, u, i, |g|)
    ensures var g := GrownValue(v, CounterListInfo(v).value, ctr);
      && Skip(u, i, false) == Ok((), i + |g|) && PeekType(u, i) == ARRAY && |g| > 0
  {
    hide *;
    var g := GrownValue(v, CounterListInfo(v).value, ctr);
    ItemFraming(g, 0, false, u, i);
    assert Skip(u, i, false).value == ();
    GrownCounters(v, ctr);
    InfoOfList(g);
    ArrayFirst(g, u, i);
  }

  lemma ArrayFirst(g: seq<byte>, u: seq<byte>, i: nat)
    requires DecodeArray(g, 0, false).Ok? && SameSlice(g, 0, u, i, |g|)
    ensures PeekType(u, i) == ARRAY && |g| > 0
  {
    hide HeadArgument;
    PeekFraming(g, 0, u, i, |g|);
  }

  /** Every other entry of a map with a grown value has the bytes it had. */
  lemma ReplacedKeeps(s: seq<byte>, detached: Option<seq<byte>>, u: seq<byte>, k: nat, end: nat, m: nat)
    requires ParseTarget(s, detached).Ok? && |s| <= SIZE_MAX
    requires k < |Entries(s)| && m < |Entries(s)| && m != k
    requires var t, x := ParseTarget(s, detached).value, Entries(s)[k];
      && t.mapStart <= x.valueAt < x.end <= t.mapEnd
      && SameSlice(s, t.mapStart, u, t.mapStart, x.valueAt - t.mapStart)
      && SameSlice(s, x.end, u, end, t.mapEnd - x.end)
    ensures SameEntry(s, Entries(s)[m], u, Replaced(Entries(s), k, end)[m])
  {
    hide *;
    var t, x := ParseTarget(s, detached).value, Entries(s)[k];
    EntryInside(s, detached, m);
    EntryInside(s, detached, k);
    EntryOrder(s, detached, m, k);
    ReplacedAt(Entries(s), k, end, m);
    if m < k {
      MovedEntry(s, Entries(s)[m], u, 0, t.mapStart, x.valueAt - t.mapStart);
    } else {
      MovedEntry(s, Entries(s)[m], u, end - x.end, x.end, t.mapEnd - x.end);
    }
  }

  /** Entries lie in the order they are counted in. */
  lemma EntryOrder(s: seq<byte>, detached: Option<seq<byte>>, m: nat, k: nat)
    requires ParseTarget(s, detached).Ok? && |s| <= SIZE_MAX && m < |Entries(s)| && k < |Entries(s)|
    ensures m < k ==> Entries(s)[m].end <= Entries(s)[k].at
    ensures k < m ==> Entries(s)[k].end <= Entries(s)[m].at
  {
    hide *;
    MapPlace(s, detached);
    var t, prot := ParseTarget(s, detached).value, ParseFront(s).value.labels;
    WalkedMap(s, t.mapStart, Counter, prot);
    if m < k {
      WalkOrder(s, t.mapContentStart, t.mapCount, Counter, prot, m, k);
    } else if k < m {
      WalkOrder(s, t.mapContentStart, t.mapCount, Counter, prot, k, m);
    }
  }

  lemma {:induction false} WalkOrder(s: seq<byte>, i: nat, n: nat, b: Bucket, seen: set<Label>, m: nat, k: nat)
    requires Walk(s, i, n, b, seen, false).Ok? && m < k < n
    ensures |Walk(s, i, n, b, seen, false).value| == n
    ensures Walk(s, i, n, b, seen, false).value[m].end <= Walk(s, i, n, b, seen, false).value[k].at
    decreases n
  {
    hide *;
    WalkStep(s, i, n, b, seen, false);
    var es := Walk(s, i, n, b, seen, false).value;
    if m == 0 {
      WalkLayout(s, es[0].end, n - 1, b, seen + {es[0].lbl}, false, k - 1);
    } else {
      WalkOrder(s, es[0].end, n - 1, b, seen + {es[0].lbl}, m - 1, k - 1);
    }
  }
}
