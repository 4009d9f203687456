/**
 What the countersignature functions depend on: where the parts of a message may
 move without changing how it parses, and how a list of countersignatures grows.
 */
module CountersignLemmas {
  import opened Wire
  import opened Cbor
  import opened CborGrammar
  import opened CborRoundTrip
  import opened Header
  import opened HeaderLemmas
  import opened Recipients
  import RecipientGrammar
  import opened Countersign

  // ----- Items in a row -----

  lemma {:induction false} TreesJoin(ts: seq<Tree>, us: seq<Tree>, tol: bool)
    requires WfAll(ts, tol) && WfAll(us, tol)
    ensures WfAll(ts + us, tol) && EncodeAll(ts + us) == EncodeAll(ts) + EncodeAll(us)
    ensures NestingAll(ts + us) == if NestingAll(ts) >= NestingAll(us) then NestingAll(ts) else NestingAll(us)
  {
    hide *;
    if ts == [] {
      NoTrees();
      assert ts + us == us;
    } else {
      WfFirst(ts, tol);
      TreesJoin(ts[1..], us, tol);
      WfCons(ts[0], ts[1..] + us, tol);
      WfCons(ts[0], ts[1..], tol);
      assert [ts[0]] + (ts[1..] + us) == ts + us && [ts[0]] + ts[1..] == ts;
    }
  }

  lemma NoTrees()
    ensures EncodeAll([]) == [] && NestingAll([]) == 0
  {
  }

  /** Items skipped in a row are skipped together. */
  lemma SkipJoin(s: seq<byte>, i: nat, n: nat, m: nat, d: nat, tol: bool)
    requires i <= |s| <= SIZE_MAX && SkipItems(s, i, n, d, tol).Ok?
    requires SkipItems(s, i, n, d, tol).next <= |s|
    requires SkipItems(s, SkipItems(s, i, n, d, tol).next, m, d, tol).Ok?
    ensures SkipItems(s, i, n + m, d, tol) == SkipItems(s, SkipItems(s, i, n, d, tol).next, m, d, tol)
  {
    hide *;
    var k := SkipItems(s, i, n, d, tol).next;
    var e := SkipItems(s, k, m, d, tol).next;
    var ts := SkipSound(s, i, n, d, tol);
    var us := SkipSound(s, k, m, d, tol);
    TreesAtJoin(s, i, ts, k, us, d, tol, e);
    SkipComplete(s, i, ts + us, d, tol, e);
  }

  lemma TreesAtJoin(s: seq<byte>, i: nat, ts: seq<Tree>, k: nat, us: seq<Tree>, d: nat, tol: bool, e: nat)
    requires TreesAt(s, i, ts, d, tol, k) && TreesAt(s, k, us, d, tol, e)
    ensures TreesAt(s, i, ts + us, d, tol, e)
  {
    TreesJoin(ts, us, tol);
    SliceSplit(s, i, k, e);
  }

  // ----- The parts of a message -----

  lemma BstrSized(s: seq<byte>, i: nat)
    requires DecodeBstr(s, i, false).Ok?
    ensures |DecodeBstr(s, i, false).value| <= |s|
  {
    hide HeadArgument;
  }

  /** Tag, array head and protected bucket depend only on the bytes before the
      unprotected map, in a message that is not shorter. */
  lemma FrontFraming(s: seq<byte>, u: seq<byte>)
    requires ParseFront(s).Ok? && |s| <= |u|
    requires SameSlice(s, 0, u, 0, ParseFront(s).next)
    ensures ParseFront(u) == ParseFront(s)
  {
    hide DecodeHead, ProtectedHdr, SameSlice;
    var e := ParseFront(s).next;
    PeekFraming(s, 0, u, 0, e);
    var i := DecodeTag(s, 0, false).next;
    var a := DecodeArray(s, i, false);
    SameSlicePart(s, 0, u, 0, e, 0, i);
    HeadFraming(s, 0, false, u, 0);
    SameSlicePart(s, 0, u, 0, e, i, a.next - i);
    HeadFraming(s, i, false, u, i);
    SameSlicePart(s, 0, u, 0, e, a.next, e - a.next);
    HeadFraming(s, a.next, false, u, a.next);
  }

  lemma PayloadFraming(s: seq<byte>, i: nat, detached: Option<seq<byte>>, u: seq<byte>, j: nat)
    requires Payload(s, i, detached).Ok?
    requires SameSlice(s, i, u, j, Payload(s, i, detached).next - i)
    ensures Payload(u, j, detached)
         == Ok(Payload(s, i, detached).value, j + (Payload(s, i, detached).next - i))
  {
    hide DecodeString, SameSlice;
    var e := Payload(s, i, detached).next;
    SameSliceAt(s, i, u, j, e - i, 0);
    SameSliceBound(s, i, u, j, e - i);
    if s[i] != NULL_BYTE {
      BstrFraming(s, i, false, u, j);
    }
  }

  lemma ChildFraming(s: seq<byte>, i: nat, tag: u64, u: seq<byte>, j: nat)
    requires Child(s, i, tag).Ok? && |u| <= SIZE_MAX
    requires SameSlice(s, i, u, j, Child(s, i, tag).next - i)
    ensures Child(u, j, tag).Ok? && Child(u, j, tag).next == j + (Child(s, i, tag).next - i)
  {
    hide SkippedSignature, SkippedRecipient, SameSlice;
    if tag == TAG_SIGN {
      SkippedSignatureFraming(s, i, u, j);
    } else {
      RecipientGrammar.SkippedRecipientFraming(s, i, u, j);
    }
  }

  lemma ChildrenStep(s: seq<byte>, i: nat, n: nat, tag: u64)
    requires n > 0
    ensures var c := Child(s, i, tag);
      Children(s, i, n, tag) == if c.Err? then Err(c.error) else Children(s, c.next, n - 1, tag)
    ensures Children(s, i, n, tag).Ok? ==>
      i < Child(s, i, tag).next <= Children(s, i, n, tag).next <= |s|
  {
    hide Child;
  }

  lemma ChildrenNone(s: seq<byte>, i: nat, tag: u64)
    ensures Children(s, i, 0, tag) == Ok((), i)
  {
  }

  lemma {:induction false} ChildrenFraming(s: seq<byte>, i: nat, n: nat, tag: u64, u: seq<byte>, j: nat)
    requires Children(s, i, n, tag).Ok? && i <= |s| && |u| <= SIZE_MAX
    requires SameSlice(s, i, u, j, Children(s, i, n, tag).next - i)
    ensures Children(u, j, n, tag) == Ok((), j + (Children(s, i, n, tag).next - i))
    decreases n
  {
    hide *;
    if n == 0 {
      ChildrenNone(s, i, tag);
      ChildrenNone(u, j, tag);
      return;
    }
    ChildrenStep(s, i, n, tag);
    ChildrenStep(u, j, n, tag);
    var e, k := Children(s, i, n, tag).next, Child(s, i, tag).next;
    SameSlicePart(s, i, u, j, e - i, 0, k - i);
    ChildFraming(s, i, tag, u, j);
    SameSlicePart(s, i, u, j, e - i, k - i, e - k);
    ChildrenFraming(s, k, n - 1, tag, u, j + (k - i));
  }

  lemma ParseChildrenFraming(s: seq<byte>, i: nat, tag: u64, u: seq<byte>, j: nat)
    requires ParseChildren(s, i, tag).Ok? && |u| <= SIZE_MAX
    requires SameSlice(s, i, u, j, ParseChildren(s, i, tag).next - i)
    ensures ParseChildren(u, j, tag) == Ok((), j + (ParseChildren(s, i, tag).next - i))
  {
    hide DecodeContainer, Children, SameSlice;
    var e := ParseChildren(s, i, tag).next;
    SameSliceBound(s, i, u, j, e - i);
    var a := DecodeArray(s, i, false);
    SameSlicePart(s, i, u, j, e - i, 0, a.next - i);
    ArrayHeadFraming(s, i, u, j);
    SameSlicePart(s, i, u, j, e - i, a.next - i, e - a.next);
    ChildrenFraming(s, a.next, a.value, tag, u, j + (a.next - i));
  }

  /** What follows the unprotected map parses the same wherever it stands. */
  lemma BackFraming(s: seq<byte>, i: nat, tag: u64, detached: Option<seq<byte>>, u: seq<byte>, j: nat)
    requires ParseBack(s, i, tag, detached).Ok? && i <= |s| && |u| <= SIZE_MAX
    requires SameSlice(s, i, u, j, |s| - i) && j + (|s| - i) == |u|
    ensures ParseBack(u, j, tag, detached) == Ok(ParseBack(s, i, tag, detached).value, |u|)
  {
    hide Payload, DecodeString, ParseChildren, SameSlice;
    var n := |s| - i;
    var p := Payload(s, i, detached);
    SameSlicePart(s, i, u, j, n, 0, p.next - i);
    PayloadFraming(s, i, detached, u, j);
    var k := p.next;
    if HasOther(tag) {
      k := DecodeBstr(s, p.next, false).next;
      SameSlicePart(s, i, u, j, n, p.next - i, k - p.next);
      BstrFraming(s, p.next, false, u, j + (p.next - i));
    }
    if HasChildren(tag) {
      SameSlicePart(s, i, u, j, n, k - i, |s| - k);
      ParseChildrenFraming(s, k, tag, u, j + (k - i));
    }
  }

  // ----- Editing a map -----

  /** A written array or map head is read back where its items fit behind it. */
  lemma CountHead(major: Major, n: u64, u: seq<byte>, i: nat)
    requires major == ARRAY || major == MAP
    requires SameSlice(EncodeHead(major, n), 0, u, i, HeadSize(n))
    requires i + HeadSize(n) + (if major == MAP then 2 * n else n) <= |u|
    ensures DecodeContainer(u, i, major, false) == Ok(n, i + HeadSize(n))
  {
    hide DecodeHead, EncodeHead, SameSlice;
    HeadRoundTrip(major, n, false, u, i);
  }

  lemma WalkOne(u: seq<byte>, at: nat, b: Bucket, seen: set<Label>, lbl: Label, valueAt: nat)
    requires DecodeLabel(u, at, false) == Ok(lbl, valueAt) && lbl != IntLabel(CRIT) && lbl !in seen
    requires Value(u, valueAt, b, lbl, false).Ok?
    ensures var end := Value(u, valueAt, b, lbl, false).next;
      Walk(u, at, 1, b, seen, false) == Ok([Entry(lbl, at, valueAt, end)], end)
  {
    hide *;
    var end := Value(u, valueAt, b, lbl, false).next;
    WalkCons(u, at, 1, b, seen, false, lbl, valueAt, end);
    WalkNone(u, end, b, seen + {lbl}, false);
    assert [Entry(lbl, at, valueAt, end)] + [] == [Entry(lbl, at, valueAt, end)];
  }

  lemma WalkedMap(s: seq<byte>, i: nat, b: Bucket, seen: set<Label>)
    ensures var m, r := DecodeMap(s, i, false), WalkMap(s, i, b, seen, false);
      && (m.Ok? && m.value <= MAX_MAP_ITEMS ==> r == Walk(s, m.next, m.value, b, seen, false))
      && (r.Ok? ==> m.Ok? && i < m.next <= r.next <= |s| && |r.value| == m.value <= MAX_MAP_ITEMS)
  {
    hide DecodeContainer, Walk;
  }

  /** A map whose content moved behind a head that counts one entry more, with that entry
      at the end: the same entries, moved, and the new one. */
  lemma MapAppend(s: seq<byte>, i: nat, b: Bucket, seen: set<Label>, u: seq<byte>, lbl: Label, valueAt: nat)
    requires WalkMap(s, i, b, seen, false).Ok? && |u| <= SIZE_MAX
    requires var es := WalkMap(s, i, b, seen, false).value;
      |es| < MAX_MAP_ITEMS && |es| + 1 < U64_BOUND && lbl !in seen + Labels(es) && lbl != IntLabel(CRIT)
    requires DecodeMap(s, i, false).Ok?
    requires var n, j, e := |WalkMap(s, i, b, seen, false).value|, DecodeMap(s, i, false).next,
                            WalkMap(s, i, b, seen, false).next;
      && j <= e
      && SameSlice(EncodeHead(MAP, n + 1), 0, u, i, HeadSize(n + 1))
      && SameSlice(s, j, u, i + HeadSize(n + 1), e - j)
      && DecodeLabel(u, i + HeadSize(n + 1) + (e - j), false) == Ok(lbl, valueAt)
    requires Value(u, valueAt, b, lbl, false).Ok?
    ensures var es, j, e := WalkMap(s, i, b, seen, false).value, DecodeMap(s, i, false).next,
                            WalkMap(s, i, b, seen, false).next;
      var at, end := i + HeadSize(|es| + 1) + (e - j), Value(u, valueAt, b, lbl, false).next;
      WalkMap(u, i, b, seen, false)
      == Ok(Move(es, i + HeadSize(|es| + 1) - j) + [Entry(lbl, at, valueAt, end)], end)
  {
    hide *;
    WalkedMap(s, i, b, seen);
    var es, e := WalkMap(s, i, b, seen, false).value, WalkMap(s, i, b, seen, false).next;
    var n, j := |es|, DecodeMap(s, i, false).next;
    var j' := i + HeadSize(n + 1);
    var at, end := j' + (e - j), Value(u, valueAt, b, lbl, false).next;
    WalkFraming(s, j, n, b, seen, false, u, j');
    MoveLabels(es, j' - j);
    WalkOne(u, at, b, seen + Labels(es), lbl, valueAt);
    WalkJoin(u, j', n, 1, b, seen, false);
    WalkLength(u, j', n + 1, b, seen, false);
    DecodeMapIs(u, i, n + 1);
    WalkedMap(u, i, b, seen);
  }

  lemma DecodeMapIs(u: seq<byte>, i: nat, n: u64)
    requires SameSlice(EncodeHead(MAP, n), 0, u, i, HeadSize(n)) && i + HeadSize(n) + 2 * n <= |u|
    ensures DecodeMap(u, i, false) == Ok(n, i + HeadSize(n))
  {
    hide DecodeContainer, SameSlice, HeadSize;
    CountHead(MAP, n, u, i);
  }

  lemma DecodeArrayIs(u: seq<byte>, i: nat, n: u64)
    requires SameSlice(EncodeHead(ARRAY, n), 0, u, i, HeadSize(n)) && i + HeadSize(n) + n <= |u|
    ensures DecodeArray(u, i, false) == Ok(n, i + HeadSize(n))
  {
    hide DecodeContainer, SameSlice, HeadSize;
    CountHead(ARRAY, n, u, i);
  }

  /** The entries of a map when the value of entry `k` is replaced by one that ends at `end`. */
  function Replaced(es: seq<Entry>, k: nat, end: nat): (r: seq<Entry>)
    requires k < |es|
    ensures |r| == |es|
  {
    es[..k] + [Entry(es[k].lbl, es[k].at, es[k].valueAt, end)] + Move(es[k + 1..], end - es[k].end)
  }

  lemma MoveZero(es: seq<Entry>)
    ensures Move(es, 0) == es
  {
  }

  lemma LabelsSplit(es: seq<Entry>, k: nat)
    requires k < |es|
    ensures Labels(es[..k]) + {es[k].lbl} + Labels(es[k + 1..]) == Labels(es)
  {
    LabelsJoin(es[..k], es[k..]);
    assert es == es[..k] + es[k..] && es[k..] == [es[k]] + es[k + 1..];
    LabelsCons(es[k], es[k + 1..]);
  }

  lemma ReplacedLabels(es: seq<Entry>, k: nat, end: nat)
    requires k < |es|
    ensures Labels(Replaced(es, k, end)) == Labels(es)
  {
    hide Labels, Move;
    var x := Entry(es[k].lbl, es[k].at, es[k].valueAt, end);
    var rest := Move(es[k + 1..], end - es[k].end);
    LabelsSplit(es, k);
    MoveLabels(es[k + 1..], end - es[k].end);
    LabelsJoin(es[..k] + [x], rest);
    LabelsJoin(es[..k], [x]);
    LabelsCons(x, []);
    assert [x] + [] == [x] && Labels([]) == {} by { NoLabels(); }
  }

  lemma NoLabels()
    ensures Labels([]) == {}
  {
  }

  /** A walk with its first value replaced: the entries after it move along. */
  lemma FirstReplace(s: seq<byte>, i: nat, b: Bucket, seen: set<Label>, n: nat, x: Entry, rest: seq<Entry>, e: nat,
                     u: seq<byte>, end: nat)
    requires b != Protected && Walk(s, i, n, b, seen, false) == Ok([x] + rest, e) && |u| <= SIZE_MAX && n > 0
    requires i <= x.valueAt < x.end <= e && SameSlice(s, i, u, i, x.valueAt - i)
    requires Value(u, x.valueAt, b, x.lbl, false) == Ok((), end)
    requires SameSlice(s, x.end, u, end, e - x.end)
    ensures Walk(u, i, n, b, seen, false)
         == Ok([Entry(x.lbl, i, x.valueAt, end)] + Move(rest, end - x.end), end + (e - x.end))
  {
    hide *;
    WalkStep(s, i, n, b, seen, false);
    HeadTail(x, rest);
    LabelFraming(s, i, false, u, i);
    WalkFraming(s, x.end, n - 1, b, seen + {x.lbl}, false, u, end);
    WalkCons(u, i, n, b, seen, false, x.lbl, x.valueAt, end);
  }

  lemma HeadTail<T>(x: T, rest: seq<T>)
    ensures ([x] + rest)[0] == x && ([x] + rest)[1..] == rest
  {
  }

  /** A walk in two parts, with the first value of the second one replaced: the entries
      before it stay, those after it move along. */
  lemma WalkReplace(s: seq<byte>, j: nat, b: Bucket, seen: set<Label>, k: nat, before: seq<Entry>,
                    at: nat, m: nat, x: Entry, rest: seq<Entry>, e: nat, u: seq<byte>, end: nat)
    requires b != Protected && j <= at < x.valueAt < x.end <= e && j <= |s| && |u| <= SIZE_MAX && m > 0
    requires Walk(s, j, k, b, seen, false) == Ok(before, at)
    requires Walk(s, at, m, b, seen + Labels(before), false) == Ok([x] + rest, e)
    requires SameSlice(s, j, u, j, at - j) && SameSlice(s, at, u, at, x.valueAt - at)
    requires Value(u, x.valueAt, b, x.lbl, false) == Ok((), end)
    requires SameSlice(s, x.end, u, end, e - x.end)
    ensures Walk(u, j, k + m, b, seen, false)
         == Ok(before + ([Entry(x.lbl, at, x.valueAt, end)] + Move(rest, end - x.end)), end + (e - x.end))
  {
    hide *;
    WalkFraming(s, j, k, b, seen, false, u, j);
    MoveZero(before);
    FirstReplace(s, at, b, seen + Labels(before), m, x, rest, e, u, end);
    WalkJoin(u, j, k, m, b, seen, false);
  }

  lemma ReplacedIs(es: seq<Entry>, k: nat, end: nat)
    requires k < |es|
    ensures Replaced(es, k, end)
         == es[..k] + ([Entry(es[k].lbl, es[k].at, es[k].valueAt, end)] + Move(es[k + 1..], end - es[k].end))
    ensures es[k..] == [es[k]] + es[k + 1..]
  {
  }

  /** A map with the value of one entry replaced. */
  lemma MapReplace(s: seq<byte>, i: nat, b: Bucket, seen: set<Label>, es: seq<Entry>, e: nat, k: nat,
                   u: seq<byte>, end: nat)
    requires b != Protected && WalkMap(s, i, b, seen, false) == Ok(es, e) && |u| <= SIZE_MAX
    requires k < |es| && i < es[k].at < es[k].valueAt < es[k].end <= e
    requires SameSlice(s, i, u, i, es[k].valueAt - i)
    requires Value(u, es[k].valueAt, b, es[k].lbl, false) == Ok((), end)
    requires SameSlice(s, es[k].end, u, end, e - es[k].end)
    ensures WalkMap(u, i, b, seen, false) == Ok(Replaced(es, k, end), end + (e - es[k].end))
  {
    hide *;
    WalkedMap(s, i, b, seen);
    var n, j := |es|, DecodeMap(s, i, false).next;
    var x := es[k];
    WalkLayout(s, j, n, b, seen, false, k);
    SameSlicePart(s, i, u, i, x.valueAt - i, j - i, x.at - j);
    SameSlicePart(s, i, u, i, x.valueAt - i, x.at - i, x.valueAt - x.at);
    SameSlicePart(s, i, u, i, x.valueAt - i, 0, j - i);
    SameSliceBound(s, x.end, u, end, e - x.end);
    var mid := WalkSplit(s, j, n, k, b, seen, false);
    ReplacedIs(es, k, end);
    WalkReplace(s, j, b, seen, k, es[..k], mid, n - k, x, es[k + 1..], e, u, end);
    WalkLength(u, j, n, b, seen, false);
    MapHeadFraming(s, i, u);
    WalkedMap(u, i, b, seen);
  }

  lemma MapHeadFraming(s: seq<byte>, i: nat, u: seq<byte>)
    requires DecodeMap(s, i, false).Ok?
    requires SameSlice(s, i, u, i, DecodeMap(s, i, false).next - i)
    requires DecodeMap(s, i, false).next + 2 * DecodeMap(s, i, false).value <= |u|
    ensures DecodeMap(u, i, false) == DecodeMap(s, i, false)
  {
    hide DecodeHead, SameSlice;
    HeadFraming(s, i, false, u, i);
  }
}
