/**
 What a decoded header map means: its labels are distinct, every field is the one
 entry with its label, and the walk depends only on the bytes it covers.
 */
module HeaderLemmas {
  import opened Wire
  import opened Cbor
  import opened CborGrammar
  import opened CborRoundTrip
  import opened Header

  // ----- Meaning -----

  predicate DistinctLabels(es: seq<Entry>) {
    forall i, j :: 0 <= i < j < |es| ==> es[i].lbl != es[j].lbl
  }

  lemma LabelsCons(e: Entry, es: seq<Entry>)
    ensures Labels([e] + es) == {e.lbl} + Labels(es)
  {
    var all := [e] + es;
    forall l
      ensures l in Labels(all) <==> l in {e.lbl} + Labels(es)
    {
      if l == e.lbl {
        assert all[0].lbl == l;
      }
      if l in Labels(es) {
        var k :| 0 <= k < |es| && es[k].lbl == l;
        assert all[k + 1].lbl == l;
      }
      if l in Labels(all) && l != e.lbl {
        var k :| 0 <= k < |all| && all[k].lbl == l;
        assert es[k - 1].lbl == l;
      }
    }
  }

  lemma LabelsJoin(es: seq<Entry>, fs: seq<Entry>)
    ensures Labels(es + fs) == Labels(es) + Labels(fs)
  {
    var all := es + fs;
    forall l
      ensures l in Labels(all) <==> l in Labels(es) + Labels(fs)
    {
      if l in Labels(es) {
        var k :| 0 <= k < |es| && es[k].lbl == l;
        assert all[k].lbl == l;
      }
      if l in Labels(fs) {
        var k :| 0 <= k < |fs| && fs[k].lbl == l;
        assert all[|es| + k].lbl == l;
      }
      if l in Labels(all) {
        var k :| 0 <= k < |all| && all[k].lbl == l;
        if k < |es| {
          assert es[k].lbl == l;
        } else {
          assert fs[k - |es|].lbl == l;
        }
      }
    }
  }

  /** The first entry of a walk, and the walk over the others. */
  lemma WalkStep(s: seq<byte>, i: nat, n: nat, b: Bucket, seen: set<Label>, tol: bool)
    requires Walk(s, i, n, b, seen, tol).Ok? && n > 0
    ensures var r := Walk(s, i, n, b, seen, tol); var e := r.value[0];
      && |r.value| == n && r.value == [e] + r.value[1..]
      && i == e.at < e.valueAt < e.end <= r.next <= |s|
      && DecodeLabel(s, i, tol) == Ok(e.lbl, e.valueAt)
      && (b != Protected ==> e.lbl != IntLabel(CRIT)) && e.lbl !in seen
      && Value(s, e.valueAt, b, e.lbl, tol).Ok? && Value(s, e.valueAt, b, e.lbl, tol).next == e.end
      && Walk(s, e.end, n - 1, b, seen + {e.lbl}, tol) == Ok(r.value[1..], r.next)
  {
    var (lbl, j) := DecodeLabel(s, i, tol).Extract();
    var k := Value(s, j, b, lbl, tol).next;
    hide Value, DecodeLabel;
    assert Walk(s, i, n, b, seen, tol).value[1..] == Walk(s, k, n - 1, b, seen + {lbl}, tol).value;
  }

  /** An entry in front of a walk. */
  lemma WalkCons(s: seq<byte>, i: nat, n: nat, b: Bucket, seen: set<Label>, tol: bool, lbl: Label, j: nat, k: nat)
    requires n > 0 && DecodeLabel(s, i, tol) == Ok(lbl, j)
    requires (b != Protected ==> lbl != IntLabel(CRIT)) && lbl !in seen
    requires Value(s, j, b, lbl, tol).Ok? && Value(s, j, b, lbl, tol).next == k
    ensures var r := Walk(s, k, n - 1, b, seen + {lbl}, tol);
      Walk(s, i, n, b, seen, tol) == if r.Ok? then Ok([Entry(lbl, i, j, k)] + r.value, r.next) else r
  {
    hide Value, DecodeLabel;
  }

  lemma WalkNone(s: seq<byte>, i: nat, b: Bucket, seen: set<Label>, tol: bool)
    ensures Walk(s, i, 0, b, seen, tol) == Ok([], i)
    ensures Labels([]) == {}
  {
  }

  lemma DistinctCons(e: Entry, es: seq<Entry>)
    requires DistinctLabels(es) && e.lbl !in Labels(es)
    ensures DistinctLabels([e] + es)
  {
    var all := [e] + es;
    forall i, j | 0 <= i < j < |all|
      ensures all[i].lbl != all[j].lbl
    {
      assert all[j] == es[j - 1] && all[j].lbl in Labels(es);
    }
  }

  /** A walked map has distinct labels, none of them seen before. */
  lemma {:induction false} WalkDistinct(s: seq<byte>, i: nat, n: nat, b: Bucket, seen: set<Label>, tol: bool)
    requires Walk(s, i, n, b, seen, tol).Ok?
    ensures DistinctLabels(Walk(s, i, n, b, seen, tol).value)
    ensures Labels(Walk(s, i, n, b, seen, tol).value) !! seen
    ensures b != Protected ==> IntLabel(CRIT) !in Labels(Walk(s, i, n, b, seen, tol).value)
    decreases n
  {
    hide Walk, Value, DecodeLabel, Labels;
    if n == 0 {
      WalkNone(s, i, b, seen, tol);
    } else {
      WalkStep(s, i, n, b, seen, tol);
      var es := Walk(s, i, n, b, seen, tol).value;
      WalkDistinct(s, es[0].end, n - 1, b, seen + {es[0].lbl}, tol);
      LabelsCons(es[0], es[1..]);
      assert es[0].lbl in seen + {es[0].lbl};
      DistinctCons(es[0], es[1..]);
    }
  }

  /** With distinct labels the field of a label is its only entry. */
  lemma {:induction false} FindUnique(es: seq<Entry>, k: nat)
    requires DistinctLabels(es) && k < |es|
    ensures Find(es, es[k].lbl) == Some(es[k])
  {
    if k < |es| - 1 {
      FindUnique(es[..|es| - 1], k);
    }
  }

  /** The last entry is found first. */
  lemma FindLast(es: seq<Entry>, e: Entry, lbl: Label)
    ensures Find(es + [e], lbl) == if e.lbl == lbl then Some(e) else Find(es, lbl)
  {
    hide Labels;
    assert (es + [e])[..|es|] == es;
  }

  lemma {:induction false} FindJoin(es: seq<Entry>, fs: seq<Entry>, lbl: Label)
    requires Labels(es) !! Labels(fs)
    ensures Find(es + fs, lbl) == if lbl in Labels(fs) then Find(fs, lbl) else Find(es, lbl)
    decreases |fs|
  {
    hide Find, Labels;
    if fs == [] {
      NoMore(Labels(es));
      assert es + fs == es;
    } else {
      var fs', e := fs[..|fs| - 1], fs[|fs| - 1];
      assert fs == fs' + [e] && es + fs == (es + fs') + [e];
      LabelsJoin(fs', [e]);
      LabelsCons(e, []);
      FindLast(es + fs', e, lbl);
      FindLast(fs', e, lbl);
      FindJoin(es, fs', lbl);
    }
  }

  /** How the entries lie: each starts where the one before ends. */
  lemma {:induction false} WalkLayout(s: seq<byte>, i: nat, n: nat, b: Bucket, seen: set<Label>, tol: bool, k: nat)
    requires Walk(s, i, n, b, seen, tol).Ok? && k < n
    ensures var es := Walk(s, i, n, b, seen, tol).value;
      && |es| == n
      && i <= es[k].at < es[k].valueAt < es[k].end <= Walk(s, i, n, b, seen, tol).next <= |s|
      && DecodeLabel(s, es[k].at, tol) == Ok(es[k].lbl, es[k].valueAt)
      && Value(s, es[k].valueAt, b, es[k].lbl, tol).Ok?
      && Value(s, es[k].valueAt, b, es[k].lbl, tol).next == es[k].end
    decreases n
  {
    hide *;
    WalkStep(s, i, n, b, seen, tol);
    var es := Walk(s, i, n, b, seen, tol).value;
    if k > 0 {
      WalkLayout(s, es[0].end, n - 1, b, seen + {es[0].lbl}, tol, k - 1);
      assert es[1..][k - 1] == es[k];
    }
  }

  /** The first `k` entries of a walk, and the rest, are walks. */
  lemma {:induction false} WalkSplit(s: seq<byte>, i: nat, n: nat, k: nat, b: Bucket, seen: set<Label>, tol: bool)
    returns (mid: nat)
    requires Walk(s, i, n, b, seen, tol).Ok? && k <= n
    ensures var es := Walk(s, i, n, b, seen, tol).value;
      && |es| == n
      && Walk(s, i, k, b, seen, tol) == Ok(es[..k], mid)
      && Walk(s, mid, n - k, b, seen + Labels(es[..k]), tol) == Ok(es[k..], Walk(s, i, n, b, seen, tol).next)
      && (k < n ==> mid == es[k].at)
    decreases k
  {
    hide *;
    WalkLength(s, i, n, b, seen, tol);
    var es := Walk(s, i, n, b, seen, tol).value;
    if k == 0 {
      mid := i;
      WalkNone(s, i, b, seen, tol);
      assert es[..0] == [] && es[0..] == es;
      NoMore(seen);
      if n > 0 {
        WalkStep(s, i, n, b, seen, tol);
      }
    } else {
      WalkStep(s, i, n, b, seen, tol);
      var e, rest := es[0], es[1..];
      mid := WalkSplit(s, e.end, n - 1, k - 1, b, seen + {e.lbl}, tol);
      WalkCons(s, i, k, b, seen, tol, e.lbl, e.valueAt, e.end);
      assert e == Entry(e.lbl, i, e.valueAt, e.end);
      SplitBehind(es, k);
      SeenJoin(seen, e, rest[..k - 1]);
    }
  }

  lemma WalkLength(s: seq<byte>, i: nat, n: nat, b: Bucket, seen: set<Label>, tol: bool)
    requires Walk(s, i, n, b, seen, tol).Ok?
    ensures |Walk(s, i, n, b, seen, tol).value| == n && i + 2 * n <= Walk(s, i, n, b, seen, tol).next
  {
  }

  /** The labels seen after an entry and those behind it. */
  lemma SeenJoin(seen: set<Label>, e: Entry, rest: seq<Entry>)
    ensures seen + {e.lbl} + Labels(rest) == seen + Labels([e] + rest)
  {
    hide Labels;
    LabelsCons(e, rest);
  }

  lemma Prepended(e: Entry, rest: seq<Entry>, more: seq<Entry>)
    ensures [e] + (rest + more) == ([e] + rest) + more
  {
  }

  /** A list cut behind its first entry, and in its rest. */
  lemma SplitBehind(es: seq<Entry>, k: nat)
    requires 0 < k <= |es|
    ensures es[..k] == [es[0]] + es[1..][..k - 1] && es[k..] == es[1..][k - 1..]
  {
  }

  lemma NoMore(seen: set<Label>)
    ensures seen + {} == seen && Labels([]) == {}
  {
  }

  /** Two walks in a row are one. */
  lemma {:induction false} WalkJoin(s: seq<byte>, i: nat, n: nat, m: nat, b: Bucket, seen: set<Label>, tol: bool)
    requires Walk(s, i, n, b, seen, tol).Ok?
    ensures var r := Walk(s, i, n, b, seen, tol);
      var q := Walk(s, r.next, m, b, seen + Labels(r.value), tol);
      Walk(s, i, n + m, b, seen, tol) == if q.Ok? then Ok(r.value + q.value, q.next) else q
    decreases n
  {
    hide *;
    var es := Walk(s, i, n, b, seen, tol).value;
    if n == 0 {
      WalkNone(s, i, b, seen, tol);
      NoMore(seen);
      var q := Walk(s, i, m, b, seen, tol);
      if q.Ok? {
        assert [] + q.value == q.value;
      }
    } else {
      WalkStep(s, i, n, b, seen, tol);
      var e, rest := es[0], es[1..];
      WalkJoin(s, e.end, n - 1, m, b, seen + {e.lbl}, tol);
      WalkCons(s, i, n + m, b, seen, tol, e.lbl, e.valueAt, e.end);
      assert e == Entry(e.lbl, i, e.valueAt, e.end);
      LabelsCons(e, rest);
      SeenJoin(seen, e, rest);
      assert es == [e] + rest;
      var q := Walk(s, Walk(s, i, n, b, seen, tol).next, m, b, seen + Labels(es), tol);
      if q.Ok? {
        Prepended(e, rest, q.value);
      }
    }
  }

  // ----- Framing -----

  lemma PeekFraming(s: seq<byte>, i: nat, t: seq<byte>, j: nat, n: nat)
    requires n > 0 && SameSlice(s, i, t, j, n)
    ensures PeekType(s, i) == PeekType(t, j)
  {
    SameSliceAt(s, i, t, j, n, 0);
  }

  lemma AlgFraming(s: seq<byte>, i: nat, tol: bool, t: seq<byte>, j: nat)
    requires AlgValue(s, i, tol).Ok? && |t| <= SIZE_MAX
    requires SameSlice(s, i, t, j, AlgValue(s, i, tol).next - i)
    ensures AlgValue(t, j, tol) == Ok(AlgValue(s, i, tol).value, j + (AlgValue(s, i, tol).next - i))
  {
    hide DecodeHead, SkipItems, SameSlice;
    PeekFraming(s, i, t, j, AlgValue(s, i, tol).next - i);
    hide PeekType;
    if PeekType(s, i) == TSTR {
      ItemFraming(s, i, tol, t, j);
    } else {
      HeadFraming(s, i, tol, t, j);
    }
  }

  /** Skipping an item, framed. */
  lemma ItemFraming(s: seq<byte>, i: nat, tol: bool, t: seq<byte>, j: nat)
    requires Skip(s, i, tol).Ok? && |t| <= SIZE_MAX
    requires SameSlice(s, i, t, j, Skip(s, i, tol).next - i)
    ensures Skip(t, j, tol).Ok? && Skip(t, j, tol).next == j + (Skip(s, i, tol).next - i)
  {
    hide SkipItems, SameSlice;
    assert i <= |s|;
    SkipFraming(s, i, 1, CBOR_MAX_DEPTH, tol, t, j);
  }

  lemma ContentTypeFraming(s: seq<byte>, i: nat, tol: bool, t: seq<byte>, j: nat)
    requires ContentTypeValue(s, i, tol).Ok? && |t| <= SIZE_MAX
    requires SameSlice(s, i, t, j, ContentTypeValue(s, i, tol).next - i)
    ensures ContentTypeValue(t, j, tol)
         == Ok(ContentTypeValue(s, i, tol).value, j + (ContentTypeValue(s, i, tol).next - i))
  {
    hide DecodeHead, SkipItems, SameSlice;
    PeekFraming(s, i, t, j, ContentTypeValue(s, i, tol).next - i);
    hide PeekType;
    if PeekType(s, i) == TSTR {
      ItemFraming(s, i, tol, t, j);
    } else {
      HeadFraming(s, i, tol, t, j);
    }
  }

  lemma BstrFraming(s: seq<byte>, i: nat, tol: bool, t: seq<byte>, j: nat)
    requires DecodeBstr(s, i, tol).Ok?
    requires SameSlice(s, i, t, j, DecodeBstr(s, i, tol).next - i)
    ensures DecodeBstr(t, j, tol) == Ok(DecodeBstr(s, i, tol).value, j + (DecodeBstr(s, i, tol).next - i))
  {
    hide DecodeHead, SameSlice;
    HeadFraming(s, i, tol, t, j);
  }

  lemma IntFraming(s: seq<byte>, i: nat, tol: bool, t: seq<byte>, j: nat)
    requires DecodeInt(s, i, tol).Ok?
    requires SameSlice(s, i, t, j, DecodeInt(s, i, tol).next - i)
    ensures DecodeInt(t, j, tol) == Ok(DecodeInt(s, i, tol).value, j + (DecodeInt(s, i, tol).next - i))
  {
    hide DecodeHead, SameSlice;
    HeadFraming(s, i, tol, t, j);
  }

  /** An array or map head is accepted wherever the bytes of its items follow. */
  lemma ContainerFraming(s: seq<byte>, i: nat, major: Major, tol: bool, t: seq<byte>, j: nat, n: nat)
    requires major == ARRAY || major == MAP
    requires DecodeContainer(s, i, major, tol).Ok? && DecodeContainer(s, i, major, tol).next - i <= n
    requires SameSlice(s, i, t, j, n)
    requires var r := DecodeContainer(s, i, major, tol);
      (if major == MAP then 2 * r.value else r.value) <= n - (r.next - i)
    ensures DecodeContainer(t, j, major, tol)
         == Ok(DecodeContainer(s, i, major, tol).value, j + (DecodeContainer(s, i, major, tol).next - i))
  {
    hide DecodeHead;
    SameSlicePart(s, i, t, j, n, 0, DecodeContainer(s, i, major, tol).next - i);
    HeadFraming(s, i, tol, t, j);
  }

  lemma CritStep(s: seq<byte>, i: nat, n: nat, tol: bool)
    requires n > 0
    ensures var d := DecodeInt(s, i, tol);
      CritLabels(s, i, n, tol)
      == if PeekType(s, i) == 0xFF || PeekType(s, i) == TSTR then Err(CoseBadHdr)
         else if d.Err? then Err(d.error)
         else if d.value < 1 || d.value > 6 then Err(CoseBadHdr)
         else var r := CritLabels(s, d.next, n - 1, tol);
           if r.Ok? then Ok([d.value] + r.value, r.next) else r
    ensures CritLabels(s, i, n, tol).Ok? ==>
      i < DecodeInt(s, i, tol).next <= CritLabels(s, i, n, tol).next <= |s|
  {
    hide DecodeInt;
  }

  lemma CritNone(s: seq<byte>, i: nat, tol: bool)
    ensures CritLabels(s, i, 0, tol) == Ok([], i)
  {
  }

  lemma {:induction false} CritLabelsFraming(s: seq<byte>, i: nat, n: nat, tol: bool, t: seq<byte>, j: nat)
    requires CritLabels(s, i, n, tol).Ok? && i <= |s|
    requires SameSlice(s, i, t, j, CritLabels(s, i, n, tol).next - i)
    ensures CritLabels(t, j, n, tol)
         == Ok(CritLabels(s, i, n, tol).value, j + (CritLabels(s, i, n, tol).next - i))
    decreases n
  {
    hide *;
    if n == 0 {
      CritNone(s, i, tol);
      CritNone(t, j, tol);
      return;
    }
    CritStep(s, i, n, tol);
    CritStep(t, j, n, tol);
    var e := CritLabels(s, i, n, tol).next;
    var k := DecodeInt(s, i, tol).next;
    PeekFraming(s, i, t, j, e - i);
    SameSlicePart(s, i, t, j, e - i, 0, k - i);
    IntFraming(s, i, tol, t, j);
    SameSlicePart(s, i, t, j, e - i, k - i, e - k);
    CritLabelsFraming(s, k, n - 1, tol, t, j + (k - i));
  }

  lemma CritFraming(s: seq<byte>, i: nat, tol: bool, t: seq<byte>, j: nat)
    requires CritValue(s, i, tol).Ok?
    requires SameSlice(s, i, t, j, CritValue(s, i, tol).next - i)
    ensures CritValue(t, j, tol) == Ok(CritValue(s, i, tol).value, j + (CritValue(s, i, tol).next - i))
  {
    hide DecodeContainer, CritLabels, SameSlice;
    var e := CritValue(s, i, tol).next;
    var k := DecodeArray(s, i, tol).next;
    ContainerFraming(s, i, ARRAY, tol, t, j, e - i);
    SameSlicePart(s, i, t, j, e - i, k - i, e - k);
    CritLabelsFraming(s, k, DecodeArray(s, i, tol).value, tol, t, j + (k - i));
  }

  /** A value decodes the same wherever its bytes stand. */
  lemma ValueFraming(s: seq<byte>, i: nat, b: Bucket, lbl: Label, tol: bool, t: seq<byte>, j: nat)
    requires Value(s, i, b, lbl, tol).Ok? && |t| <= SIZE_MAX
    requires SameSlice(s, i, t, j, Value(s, i, b, lbl, tol).next - i)
    ensures Value(t, j, b, lbl, tol).Ok?
    ensures Value(t, j, b, lbl, tol).next == j + (Value(s, i, b, lbl, tol).next - i)
  {
    hide AlgValue, CritValue, ContentTypeValue, DecodeBstr, Skip, PeekType, SameSlice;
    var e := Value(s, i, b, lbl, tol).next;
    if b == Counter {
      PeekFraming(s, i, t, j, e - i);
      ItemFraming(s, i, false, t, j);
    } else if lbl == IntLabel(ALG) {
      AlgFraming(s, i, tol, t, j);
    } else if lbl == IntLabel(CRIT) && b == Protected {
      CritFraming(s, i, tol, t, j);
    } else if lbl == IntLabel(CONTENT_TYPE) {
      ContentTypeFraming(s, i, tol, t, j);
    } else if lbl == IntLabel(KID) || lbl == IntLabel(IV) || lbl == IntLabel(PARTIAL_IV) {
      BstrFraming(s, i, tol, t, j);
    } else {
      ItemFraming(s, i, tol, t, j);
    }
  }

  /** Entries moved by `d` bytes. */
  function Move(es: seq<Entry>, d: int): (r: seq<Entry>)
    ensures |r| == |es|
    ensures forall k :: 0 <= k < |es| ==>
      r[k] == Entry(es[k].lbl, es[k].at + d, es[k].valueAt + d, es[k].end + d)
  {
    seq(|es|, k requires 0 <= k < |es| => Entry(es[k].lbl, es[k].at + d, es[k].valueAt + d, es[k].end + d))
  }

  lemma MoveLabels(es: seq<Entry>, d: int)
    ensures Labels(Move(es, d)) == Labels(es)
  {
    var r := Move(es, d);
    assert forall k :: 0 <= k < |es| ==> r[k].lbl == es[k].lbl;
    forall l
      ensures l in Labels(r) <==> l in Labels(es)
    {
      if l in Labels(r) {
        var k :| 0 <= k < |r| && r[k].lbl == l;
        assert es[k].lbl == l;
      }
      if l in Labels(es) {
        var k :| 0 <= k < |es| && es[k].lbl == l;
        assert r[k].lbl == l;
      }
    }
  }

  lemma MoveCons(e: Entry, es: seq<Entry>, d: int)
    ensures Move([e] + es, d) == [Entry(e.lbl, e.at + d, e.valueAt + d, e.end + d)] + Move(es, d)
  {
  }

  lemma MoveNone(d: int)
    ensures Move([], d) == []
  {
  }

  /** A walk gives the same entries, moved, wherever the bytes it covers stand. */
  lemma {:induction false} WalkFraming(s: seq<byte>, i: nat, n: nat, b: Bucket, seen: set<Label>, tol: bool,
                                       t: seq<byte>, j: nat)
    requires Walk(s, i, n, b, seen, tol).Ok? && i <= |s| && |t| <= SIZE_MAX
    requires SameSlice(s, i, t, j, Walk(s, i, n, b, seen, tol).next - i)
    ensures Walk(t, j, n, b, seen, tol)
         == Ok(Move(Walk(s, i, n, b, seen, tol).value, j - i), j + (Walk(s, i, n, b, seen, tol).next - i))
    decreases n
  {
    hide *;
    var es, e := Walk(s, i, n, b, seen, tol).value, Walk(s, i, n, b, seen, tol).next;
    if n == 0 {
      WalkNone(s, i, b, seen, tol);
      WalkNone(t, j, b, seen, tol);
      MoveNone(j - i);
    } else {
      WalkStep(s, i, n, b, seen, tol);
      var a, v, k := es[0].lbl, es[0].valueAt, es[0].end;
      SameSlicePart(s, i, t, j, e - i, 0, v - i);
      LabelFraming(s, i, tol, t, j);
      SameSlicePart(s, i, t, j, e - i, v - i, k - v);
      ValueFraming(s, v, b, a, tol, t, j + (v - i));
      SameSlicePart(s, i, t, j, e - i, k - i, e - k);
      WalkFraming(s, k, n - 1, b, seen + {a}, tol, t, j + (k - i));
      WalkCons(t, j, n, b, seen, tol, a, j + (v - i), j + (k - i));
      MoveCons(es[0], es[1..], j - i);
    }
  }

  /** A whole map is walked the same wherever its bytes stand. */
  lemma WalkMapFraming(s: seq<byte>, i: nat, b: Bucket, seen: set<Label>, tol: bool, t: seq<byte>, j: nat)
    requires WalkMap(s, i, b, seen, tol).Ok? && |t| <= SIZE_MAX
    requires SameSlice(s, i, t, j, WalkMap(s, i, b, seen, tol).next - i)
    ensures WalkMap(t, j, b, seen, tol)
         == Ok(Move(WalkMap(s, i, b, seen, tol).value, j - i), j + (WalkMap(s, i, b, seen, tol).next - i))
  {
    hide DecodeContainer, Walk, SameSlice;
    var e := WalkMap(s, i, b, seen, tol).next;
    var n, k := DecodeMap(s, i, tol).value, DecodeMap(s, i, tol).next;
    ContainerFraming(s, i, MAP, tol, t, j, e - i);
    SameSlicePart(s, i, t, j, e - i, k - i, e - k);
    WalkFraming(s, k, n, b, seen, tol, t, j + (k - i));
  }

  // ----- The two buckets of a message -----

  /** When both buckets decode, their labels are pairwise distinct across the two maps;
      IV and partial IV never both appear; every critical label is one of 1..6 and is
      present in the protected map. */
  lemma BucketsDisjoint(data: seq<byte>, s: seq<byte>, i: nat, tol: bool)
    requires ProtectedHdr(data, tol).Ok?
    requires UnprotectedHdr(s, i, Labels(ProtectedHdr(data, tol).value), tol).Ok?
    ensures var ps := ProtectedHdr(data, tol).value;
      var us := UnprotectedHdr(s, i, Labels(ps), tol).value;
      && DistinctLabels(ps + us)
      && !(IntLabel(5) in Labels(ps + us) && IntLabel(6) in Labels(ps + us))
      && (forall c :: c in CritField(data, ps, tol) ==> 1 <= c <= 6 && IntLabel(c) in Labels(ps))
      && IntLabel(2) !in Labels(us)
      && !HasCounterLabel(Labels(ps))
  {
    hide Walk, Labels, CritValue, DecodeContainer;
    var ps := ProtectedHdr(data, tol).value;
    var us := UnprotectedHdr(s, i, Labels(ps), tol).value;
    if data != [] {
      var n, j := DecodeMap(data, 0, tol).value, DecodeMap(data, 0, tol).next;
      WalkDistinct(data, j, n, Protected, {}, tol);
    }
    var m, k := DecodeMap(s, i, tol).value, DecodeMap(s, i, tol).next;
    WalkDistinct(s, k, m, Unprotected, Labels(ps), tol);
    LabelsJoin(ps, us);
    forall a, b | 0 <= a < b < |ps + us|
      ensures (ps + us)[a].lbl != (ps + us)[b].lbl
    {
      if a < |ps| <= b {
        assert ps[a].lbl in Labels(ps) && us[b - |ps|].lbl in Labels(us);
      }
    }
  }
}
