/**
 The main results about attaching: when the result can be parsed again, and that it
 then holds every earlier countersignature, over the same signed structure.
 */
module CountersignKeeps {
  import opened Wire
  import opened Cbor
  import opened CborRoundTrip
  import opened Header
  import opened HeaderLemmas
  import opened Countersign
  import opened CountersignLemmas
  import opened CountersignLists
  import opened CountersignReparse

  // ----- What is attached -----

  /** The full countersignatures of a message, in the order of their indices. */
  function FullCounters(s: seq<byte>, t: Target): (cs: seq<seq<byte>>) {
    if t.full.None? then []
    else
      var v := FullValue(s, t.full.value);
      if CounterListInfo(v).Ok? then Counters(v) else []
  }

  /** Whether there is room for one more full countersignature. */
  predicate RoomForFull(s: seq<byte>, t: Target) {
    match t.full
    case Some(r) => Growable(s, r)
    case None => t.mapCount < MAX_MAP_ITEMS
  }

  /** The message with one more full countersignature. */
  function WithFull(s: seq<byte>, t: Target, ctr: seq<byte>): (u: seq<byte>)
    requires t.mapStart <= t.mapContentStart <= t.mapEnd <= |s| && RoomForFull(s, t)
  {
    match t.full
    case Some(r) => WithGrownValue(s, r, ctr)
    case None => WithEntry(s, t, COUNTERSIGNATURE_V2, ctr)
  }

  /** Whether the value that is there leaves room for one more level of nesting. */
  predicate NestsDeeper(s: seq<byte>, t: Target)
    requires RoomForFull(s, t)
  {
    match t.full
    case Some(r) =>
      FullValueIs(s, r);
      CanNest(FullValue(s, r))
    case None => true
  }

  /** Every other countersignature value of the message has the bytes it had. */
  predicate OthersKept(s: seq<byte>, t: Target, u: seq<byte>, t': Target) {
    && ValueBytes(u, t'.legacyFull) == ValueBytes(s, t.legacyFull)
    && ValueBytes(u, t'.legacyAbbreviated) == ValueBytes(s, t.legacyAbbreviated)
    && (t'.legacyFull.Some? <==> t.legacyFull.Some?)
    && (t'.legacyAbbreviated.Some? <==> t.legacyAbbreviated.Some?)
  }

  // ----- Looking up what was kept -----

  lemma KeptLabel(s: seq<byte>, es: seq<Entry>, u: seq<byte>, fs: seq<Entry>, skip: int, n: i64)
    requires KeepsEntries(s, es, u, fs, skip) && IntLabel(n) in Labels(fs)
    requires 0 <= skip < |es| ==> es[skip].lbl == fs[skip].lbl
    requires forall k :: |es| <= k < |fs| ==> fs[k].lbl != IntLabel(n)
    ensures IntLabel(n) in Labels(es)
  {
    var k :| 0 <= k < |fs| && fs[k].lbl == IntLabel(n);
    if k != skip {
      assert SameEntry(s, es[k], u, fs[k]);
    }
    assert es[k].lbl == IntLabel(n);
  }

  /** A value under a label that is neither new nor grown has the bytes it had. */
  lemma OtherKept(s: seq<byte>, es: seq<Entry>, u: seq<byte>, fs: seq<Entry>, skip: int, n: i64)
    requires KeepsEntries(s, es, u, fs, skip) && DistinctLabels(es) && DistinctLabels(fs)
    requires 0 <= skip < |es| ==> es[skip].lbl == fs[skip].lbl && es[skip].lbl != IntLabel(n)
    requires forall k :: |es| <= k < |fs| ==> fs[k].lbl != IntLabel(n)
    ensures ValueBytes(u, Located(fs, n)) == ValueBytes(s, Located(es, n))
    ensures Located(fs, n).Some? <==> Located(es, n).Some?
  {
    hide Labels, Located, SameEntry, DistinctLabels, ValueBytes;
    if IntLabel(n) in Labels(fs) {
      KeptLabel(s, es, u, fs, skip, n);
    }
    LocatedKept(s, es, u, fs, n);
  }

  /** Where the value of an entry is located. */
  lemma LocatedAt(es: seq<Entry>, k: nat, n: i64)
    requires DistinctLabels(es) && k < |es| && es[k].lbl == IntLabel(n)
    ensures Located(es, n) == Some(Range(es[k].valueAt, es[k].end))
  {
    hide Find, DistinctLabels;
    FindUnique(es, k);
  }

  /** A countersignature on its own is a value that holds one. */
  lemma SingleValue(ctr: seq<byte>)
    requires Attachable(ctr) && |ctr| <= SIZE_MAX
    ensures CounterListInfo(ctr) == Ok(ListInfo(1, 0, false), |ctr|) && Counters(ctr) == [ctr]
    ensures ValueFor(COUNTERSIGNATURE_V2, ctr)
  {
    hide ProtectedHdr, UnprotectedHdr, CounterItems, SkipItems, HeadArgument;
    SkipDeeper(ctr, 0, 1, 2, CBOR_MAX_DEPTH, false);
  }

  /** A byte string is one item. */
  lemma AbbreviatedValue(sig: seq<byte>)
    requires |sig| <= SIZE_MAX
    ensures ValueFor(COUNTERSIGNATURE0_V2, EncodeBstr(sig))
  {
    hide SkipItems, HeadArgument, EncodeString, SameSlice;
    var b := EncodeBstr(sig);
    SliceSelf(b);
    BstrRead(sig, b, 0);
    SkipOfHead(b, 0, CBOR_MAX_DEPTH, false);
  }

  lemma SliceSelf(b: seq<byte>)
    ensures SameSlice(b, 0, b, 0, |b|)
  {
  }

  // ----- A new entry -----

  lemma NewFull(s: seq<byte>, detached: Option<seq<byte>>, ctr: seq<byte>)
    requires ParseTarget(s, detached).Ok? && |s| <= SIZE_MAX && Attachable(ctr) && |ctr| <= SIZE_MAX
    requires var t := ParseTarget(s, detached).value;
      && t.full.None? && t.mapCount < MAX_MAP_ITEMS
      && |WithEntry(s, t, COUNTERSIGNATURE_V2, ctr)| <= SIZE_MAX
    ensures var t := ParseTarget(s, detached).value;
      var u := WithEntry(s, t, COUNTERSIGNATURE_V2, ctr);
      && ParseTarget(u, detached).Ok? && SameFields(t, ParseTarget(u, detached).value)
      && FullCounters(u, ParseTarget(u, detached).value) == [ctr]
      && OthersKept(s, t, u, ParseTarget(u, detached).value)
      && ValueBytes(u, ParseTarget(u, detached).value.abbreviated) == ValueBytes(s, t.abbreviated)
      && (ParseTarget(u, detached).value.abbreviated.Some? <==> t.abbreviated.Some?)
  {
    hide *;
    TargetParts(s, detached);
    LocatedIs(Entries(s), COUNTERSIGNATURE_V2);
    SingleValue(ctr);
    EntryReparse(s, detached, COUNTERSIGNATURE_V2, ctr);
    var t := ParseTarget(s, detached).value;
    var u := WithEntry(s, t, COUNTERSIGNATURE_V2, ctr);
    MapPlace(s, detached);
    MapPlace(u, detached);
    TargetParts(u, detached);
    var es, fs := Entries(s), Entries(u);
    LocatedAt(fs, |es|, COUNTERSIGNATURE_V2);
    OtherLabels();
    OtherKept(s, es, u, fs, -1, COUNTERSIGNATURE_LEGACY);
    OtherKept(s, es, u, fs, -1, COUNTERSIGNATURE0_LEGACY);
    OtherKept(s, es, u, fs, -1, COUNTERSIGNATURE0_V2);
    FullCountersIs(u, ParseTarget(u, detached).value, ctr);
    OthersKeptIs(s, t, u, ParseTarget(u, detached).value);
  }

  lemma OtherLabels()
    ensures COUNTERSIGNATURE_LEGACY != COUNTERSIGNATURE_V2 && COUNTERSIGNATURE0_LEGACY != COUNTERSIGNATURE_V2
    ensures COUNTERSIGNATURE_LEGACY != COUNTERSIGNATURE0_V2 && COUNTERSIGNATURE0_LEGACY != COUNTERSIGNATURE0_V2
    ensures COUNTERSIGNATURE_V2 != COUNTERSIGNATURE0_V2
  {
  }

  lemma FullCountersIs(u: seq<byte>, t: Target, v: seq<byte>)
    requires t.full.Some? && 0 <= t.full.value.start <= t.full.value.end <= |u|
    requires u[t.full.value.start..t.full.value.end] == v && CounterListInfo(v).Ok?
    ensures FullCounters(u, t) == Counters(v) && FullValue(u, t.full.value) == v
  {
    hide CounterListInfo, Counters;
  }

  lemma OthersKeptIs(s: seq<byte>, t: Target, u: seq<byte>, t': Target)
    requires ValueBytes(u, t'.legacyFull) == ValueBytes(s, t.legacyFull)
    requires ValueBytes(u, t'.legacyAbbreviated) == ValueBytes(s, t.legacyAbbreviated)
    requires t'.legacyFull.Some? <==> t.legacyFull.Some?
    requires t'.legacyAbbreviated.Some? <==> t.legacyAbbreviated.Some?
    ensures OthersKept(s, t, u, t')
  {
  }

  // ----- A grown value -----

  lemma GrownFull(s: seq<byte>, detached: Option<seq<byte>>, ctr: seq<byte>)
    requires ParseTarget(s, detached).Ok? && |s| <= SIZE_MAX && Attachable(ctr)
    requires var t := ParseTarget(s, detached).value;
      && t.full.Some? && Growable(s, t.full.value)
      && |WithGrownValue(s, t.full.value, ctr)| <= SIZE_MAX && CanNest(FullValue(s, t.full.value))
    ensures var t := ParseTarget(s, detached).value;
      var u := WithGrownValue(s, t.full.value, ctr);
      && ParseTarget(u, detached).Ok? && SameFields(t, ParseTarget(u, detached).value)
      && FullCounters(u, ParseTarget(u, detached).value) == FullCounters(s, t) + [ctr]
      && OthersKept(s, t, u, ParseTarget(u, detached).value)
      && ValueBytes(u, ParseTarget(u, detached).value.abbreviated) == ValueBytes(s, t.abbreviated)
      && (ParseTarget(u, detached).value.abbreviated.Some? <==> t.abbreviated.Some?)
  {
    hide *;
    TargetParts(s, detached);
    var t := ParseTarget(s, detached).value;
    FullValueIs(s, t.full.value);
    WithGrownIs(s, t.full.value, ctr);
    var k := GrowReparse(s, detached, ctr);
    var u := WithGrownValue(s, t.full.value, ctr);
    MapPlace(s, detached);
    MapPlace(u, detached);
    TargetParts(u, detached);
    var es, fs := Entries(s), Entries(u);
    LocatedAt(fs, k, COUNTERSIGNATURE_V2);
    OtherLabels();
    OtherKept(s, es, u, fs, k, COUNTERSIGNATURE_LEGACY);
    OtherKept(s, es, u, fs, k, COUNTERSIGNATURE0_LEGACY);
    OtherKept(s, es, u, fs, k, COUNTERSIGNATURE0_V2);
    var v := FullValue(s, t.full.value);
    GrownSized(s, detached, ctr);
    GrownCounters(v, ctr);
    var g := GrownValue(v, CounterListInfo(v).value, ctr);
    FullCountersIs(u, ParseTarget(u, detached).value, g);
    FullCountersIs(s, t, v);
    OthersKeptIs(s, t, u, ParseTarget(u, detached).value);
  }

  lemma GrownSized(s: seq<byte>, detached: Option<seq<byte>>, ctr: seq<byte>)
    requires ParseTarget(s, detached).Ok? && |s| <= SIZE_MAX
    requires var t := ParseTarget(s, detached).value;
      && t.full.Some? && Growable(s, t.full.value) && |WithGrownValue(s, t.full.value, ctr)| <= SIZE_MAX
    ensures var v := FullValue(s, ParseTarget(s, detached).value.full.value);
      && CounterListInfo(v).Ok? && CounterListInfo(v).value.count < MAX_MAP_ITEMS
      && |v| <= SIZE_MAX && |GrownValue(v, CounterListInfo(v).value, ctr)| <= SIZE_MAX
      && Skip(v, 0, false) == Ok((), |v|)
  {
    hide *;
    var t := ParseTarget(s, detached).value;
    var k := FullEntry(s, detached);
    FullValueIs(s, t.full.value);
    GrownMessageLayout(s, t.full.value, ctr);
  }

  /** When a single countersignature cannot go one level deeper, the message that results
      from attaching another does not parse. */
  lemma TooDeep(s: seq<byte>, detached: Option<seq<byte>>, ctr: seq<byte>)
    requires ParseTarget(s, detached).Ok? && |s| <= SIZE_MAX && ctr != []
    requires var t := ParseTarget(s, detached).value;
      && t.full.Some? && Growable(s, t.full.value) && |WithGrownValue(s, t.full.value, ctr)| <= SIZE_MAX
    requires ParseTarget(WithGrownValue(s, ParseTarget(s, detached).value.full.value, ctr), detached).Ok?
    ensures var v := FullValue(s, ParseTarget(s, detached).value.full.value); CounterListInfo(v).Ok? && CanNest(v)
  {
    hide *;
    var t := ParseTarget(s, detached).value;
    var r := t.full.value;
    var k := FullEntry(s, detached);
    FullValueIs(s, r);
    WithGrownIs(s, r, ctr);
    GrownSized(s, detached, ctr);
    GrownMessageLayout(s, r, ctr);
    var u := WithGrownValue(s, r, ctr);
    SameStart(s, detached, u, k);
    NestsWhereSkipped(FullValue(s, r), ctr, u, r.start);
  }

  /** Two messages that agree up to the value of entry `k`: both skip an item there. */
  lemma SameStart(s: seq<byte>, detached: Option<seq<byte>>, u: seq<byte>, k: nat)
    requires ParseTarget(s, detached).Ok? && ParseTarget(u, detached).Ok? && |s| <= |u| <= SIZE_MAX
    requires k < |Entries(s)| && Entries(s)[k].valueAt >= 0 && SameSlice(s, 0, u, 0, Entries(s)[k].valueAt)
    ensures Entries(s)[k].valueAt <= |u| && Skip(u, Entries(s)[k].valueAt, false).Ok?
  {
    hide *;
    MapPlace(s, detached);
    MapPlace(u, detached);
    EntryInside(s, detached, k);
    var t, x := ParseTarget(s, detached).value, Entries(s)[k];
    SameSlicePart(s, 0, u, 0, x.valueAt, 0, t.mapStart);
    FrontFraming(s, u);
    var prot := ParseFront(s).value.labels;
    var i, j := t.mapStart, t.mapContentStart;
    SameSlicePart(s, 0, u, 0, x.valueAt, i, j - i);
    MapHeadAgain(s, i, u);
    WalkedMap(s, i, Counter, prot);
    WalkedMap(u, i, Counter, prot);
    SameSlicePart(s, 0, u, 0, x.valueAt, j, x.at - j);
    SameSlicePart(s, 0, u, 0, x.valueAt, x.at, x.valueAt - x.at);
    SameEntryStart(s, j, t.mapCount, prot, u, k);
  }

  lemma MapHeadAgain(s: seq<byte>, i: nat, u: seq<byte>)
    requires DecodeMap(s, i, false).Ok? && DecodeMap(u, i, false).Ok?
    requires SameSlice(s, i, u, i, DecodeMap(s, i, false).next - i)
    ensures DecodeMap(u, i, false) == DecodeMap(s, i, false)
  {
    hide DecodeHead, SameSlice;
    HeadFraming(s, i, false, u, i);
  }

  lemma SameEntryStart(s: seq<byte>, j: nat, n: nat, prot: set<Label>, u: seq<byte>, k: nat)
    requires Walk(s, j, n, Counter, prot, false).Ok? && Walk(u, j, n, Counter, prot, false).Ok?
    requires k < n && j <= |s| && |u| <= SIZE_MAX && |Walk(s, j, n, Counter, prot, false).value| == n
    requires var x := Walk(s, j, n, Counter, prot, false).value[k];
      && j <= x.at < x.valueAt && SameSlice(s, j, u, j, x.at - j) && SameSlice(s, x.at, u, x.at, x.valueAt - x.at)
    ensures var x := Walk(s, j, n, Counter, prot, false).value[k]; x.valueAt <= |u| && Skip(u, x.valueAt, false).Ok?
  {
    hide *;
    var x := Walk(s, j, n, Counter, prot, false).value[k];
    var mid := WalkSplit(s, j, n, k, Counter, prot, false);
    WalkLayout(s, j, n, Counter, prot, false, k);
    WalkFraming(s, j, k, Counter, prot, false, u, j);
    var mid' := WalkSplit(u, j, n, k, Counter, prot, false);
    WalkLayout(u, j, n, Counter, prot, false, k);
    LabelFraming(s, x.at, false, u, x.at);
    var y := Walk(u, j, n, Counter, prot, false).value[k];
    assert y.at == x.at && y.valueAt == x.valueAt;
    CounterIsItem(u, y.valueAt, y.lbl);
  }

  // ----- Main results -----

  /** After a full countersignature was attached the message parses again exactly when the
      value that was there leaves room for one more level of nesting; then the signed fields
      are the same, the full countersignatures are the earlier ones at the same indices and
      the new one behind them, and every other countersignature is untouched. */
  lemma FullAttachKeepsEarlier(s: seq<byte>, detached: Option<seq<byte>>, ctr: seq<byte>)
    requires ParseTarget(s, detached).Ok? && |s| <= SIZE_MAX && Attachable(ctr) && |ctr| <= SIZE_MAX
    requires var t := ParseTarget(s, detached).value;
      RoomForFull(s, t) && |WithFull(s, t, ctr)| <= SIZE_MAX
    ensures var t := ParseTarget(s, detached).value;
      var r := ParseTarget(WithFull(s, t, ctr), detached);
      && (r.Ok? <==> NestsDeeper(s, t))
      && (r.Ok? ==>
            && SameFields(t, r.value)
            && FullCounters(WithFull(s, t, ctr), r.value) == FullCounters(s, t) + [ctr]
            && OthersKept(s, t, WithFull(s, t, ctr), r.value)
            && ValueBytes(WithFull(s, t, ctr), r.value.abbreviated) == ValueBytes(s, t.abbreviated)
            && (r.value.abbreviated.Some? <==> t.abbreviated.Some?))
  {
    hide CanNest, WithGrownValue, WithEntry, CounterListInfo, Counters, ParseTarget, OthersKept, SameFields, ValueBytes,
         Attachable, FullValue, Growable;
    var t := ParseTarget(s, detached).value;
    match t.full
    case None =>
      NewFull(s, detached, ctr);
    case Some(r) =>
      FullValueIs(s, r);
      AttachableNotEmpty(ctr);
      if CanNest(FullValue(s, r)) {
        GrownFull(s, detached, ctr);
      }
      if ParseTarget(WithGrownValue(s, r, ctr), detached).Ok? {
        TooDeep(s, detached, ctr);
      }
  }

  lemma AttachableNotEmpty(ctr: seq<byte>)
    requires Attachable(ctr)
    ensures ctr != []
  {
    hide FullCounter;
  }

  /** After an abbreviated countersignature was attached the message always parses again, to
      the same signed fields, with the signature under its label and all full
      countersignatures as they were. */
  lemma AbbreviatedAttachKeepsEarlier(s: seq<byte>, detached: Option<seq<byte>>, sig: seq<byte>)
    requires ParseTarget(s, detached).Ok? && |s| <= SIZE_MAX && |sig| <= SIZE_MAX
    requires var t := ParseTarget(s, detached).value;
      && t.abbreviated.None? && t.mapCount < MAX_MAP_ITEMS
      && |WithEntry(s, t, COUNTERSIGNATURE0_V2, EncodeBstr(sig))| <= SIZE_MAX
    ensures var t := ParseTarget(s, detached).value;
      var u := WithEntry(s, t, COUNTERSIGNATURE0_V2, EncodeBstr(sig));
      var r := ParseTarget(u, detached);
      && r.Ok? && SameFields(t, r.value)
      && r.value.abbreviated.Some? && ValueBytes(u, r.value.abbreviated) == Some(EncodeBstr(sig))
      && FullCounters(u, r.value) == FullCounters(s, t)
      && ValueBytes(u, r.value.full) == ValueBytes(s, t.full) && (r.value.full.Some? <==> t.full.Some?)
      && OthersKept(s, t, u, r.value)
  {
    hide *;
    TargetParts(s, detached);
    LocatedIs(Entries(s), COUNTERSIGNATURE0_V2);
    AbbreviatedValue(sig);
    EntryReparse(s, detached, COUNTERSIGNATURE0_V2, EncodeBstr(sig));
    var t := ParseTarget(s, detached).value;
    var u := WithEntry(s, t, COUNTERSIGNATURE0_V2, EncodeBstr(sig));
    MapPlace(s, detached);
    MapPlace(u, detached);
    TargetParts(u, detached);
    var es, fs := Entries(s), Entries(u);
    LocatedAt(fs, |es|, COUNTERSIGNATURE0_V2);
    OtherLabels();
    OtherKept(s, es, u, fs, -1, COUNTERSIGNATURE_LEGACY);
    OtherKept(s, es, u, fs, -1, COUNTERSIGNATURE0_LEGACY);
    OtherKept(s, es, u, fs, -1, COUNTERSIGNATURE_V2);
    OthersKeptIs(s, t, u, ParseTarget(u, detached).value);
    SameFullCounters(s, t, u, ParseTarget(u, detached).value);
    ValueBytesIs(u, fs[|es|].valueAt, fs[|es|].end);
    if t.full.Some? {
      var k := FullEntry(s, detached);
      ValueBytesIs(s, t.full.value.start, t.full.value.end);
    }
  }

  lemma ValueBytesIs(u: seq<byte>, i: int, e: int)
    requires 0 <= i <= e <= |u|
    ensures ValueBytes(u, Some(Range(i, e))) == Some(u[i..e])
  {
  }

  lemma SameFullCounters(s: seq<byte>, t: Target, u: seq<byte>, t': Target)
    requires ValueBytes(u, t'.full) == ValueBytes(s, t.full) && (t'.full.Some? <==> t.full.Some?)
    ensures FullCounters(u, t') == FullCounters(s, t)
  {
    hide CounterListInfo, Counters;
  }
}
