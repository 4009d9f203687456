/**
 Which header buckets are accepted, spelled out (section 3 of RFC 9052): entries in a row, each with a value
 of the type of its label, and the rules for labels, critical labels and the two IVs.
 */
module HeaderExact {
  import opened Wire
  import opened Cbor
  import opened Header
  import opened HeaderLemmas

  // ----- Entries -----

  /** A text stands at `i`, up to `e`, as the tolerant or the strict codec skips it. */
  predicate TextStands(s: seq<byte>, i: nat, e: int, tol: bool) {
    i < |s| && s[i] / 32 == 3 && Skip(s, i, tol).Ok? && Skip(s, i, tol).next == e
  }

  /** The integers `cs` stand in a row. */
  predicate IntsStand(s: seq<byte>, i: nat, cs: seq<i64>, e: int, tol: bool)
    decreases |cs|
  {
    if cs == [] then i == e
    else
      var r := DecodeInt(s, i, tol);
      r.Ok? && r.value == cs[0] && IntsStand(s, r.next, cs[1..], e, tol)
  }

  /** The critical labels: an array that is not empty, of labels 1 to 6. */
  predicate CritStands(s: seq<byte>, i: nat, cs: seq<i64>, e: int, tol: bool) {
    var a := DecodeArray(s, i, tol);
    && a.Ok? && 0 < a.value <= MAX_MAP_ITEMS && |cs| == a.value && IntsStand(s, a.next, cs, e, tol)
    && forall c :: c in cs ==> 1 <= c <= 6
  }

  /** The value of an entry, by its label: an algorithm is an integer of 32 bits or a text; critical labels are an
      array; a content type is an integer of 31 bits or a text; key identifier, IV and Partial IV are byte
      strings; under any other label any item may stand. */
  ghost predicate ValueStands(s: seq<byte>, i: nat, lbl: Label, e: int, isProtected: bool, tol: bool) {
    if lbl == IntLabel(1) then
      || (DecodeInt(s, i, tol).Ok? && DecodeInt(s, i, tol).next == e
          && -0x8000_0000 <= DecodeInt(s, i, tol).value <= 0x7FFF_FFFF)
      || TextStands(s, i, e, tol)
    else if lbl == IntLabel(2) && isProtected then exists cs :: CritStands(s, i, cs, e, tol)
    else if lbl == IntLabel(3) then
      || (DecodeUint(s, i, tol).Ok? && DecodeUint(s, i, tol).next == e && DecodeUint(s, i, tol).value <= 0x7FFF_FFFF)
      || TextStands(s, i, e, tol)
    else if lbl == IntLabel(4) || lbl == IntLabel(5) || lbl == IntLabel(6) then
      DecodeBstr(s, i, tol).Ok? && DecodeBstr(s, i, tol).next == e
    else Skip(s, i, tol).Ok? && Skip(s, i, tol).next == e
  }

  /** The entries stand in a row, from `i` up to `e`. */
  ghost predicate EntriesStand(s: seq<byte>, i: int, es: seq<Entry>, e: int, isProtected: bool, tol: bool)
    decreases |es|
  {
    if es == [] then i == e
    else
      var x := es[0];
      && 0 <= i == x.at && DecodeLabel(s, i, tol).Ok?
      && DecodeLabel(s, i, tol).value == x.lbl && DecodeLabel(s, i, tol).next == x.valueAt
      && ValueStands(s, x.valueAt, x.lbl, x.end, isProtected, tol)
      && EntriesStand(s, x.end, es[1..], e, isProtected, tol)
  }

  /** A map of these entries stands at `i`, up to `e`. */
  ghost predicate MapStands(s: seq<byte>, i: nat, es: seq<Entry>, e: int, isProtected: bool, tol: bool) {
    var m := DecodeMap(s, i, tol);
    m.Ok? && m.value == |es| <= MAX_MAP_ITEMS && EntriesStand(s, m.next, es, e, isProtected, tol)
  }

  // ----- The walk takes exactly these -----

  lemma {:induction false} CritExactly(s: seq<byte>, i: nat, n: nat, tol: bool, cs: seq<i64>, e: nat)
    ensures CritLabels(s, i, n, tol) == Ok(cs, e)
       <==> |cs| == n && IntsStand(s, i, cs, e, tol) && forall c :: c in cs ==> 1 <= c <= 6
    decreases n
  {
    hide DecodeInt;
    if n > 0 {
      var r := DecodeInt(s, i, tol);
      NoText(s, i, tol);
      if r.Ok? {
        var rest := CritLabels(s, r.next, n - 1, tol);
        if rest.Ok? {
          assert ([r.value] + rest.value)[1..] == rest.value;
        }
        if cs != [] {
          CritExactly(s, r.next, n - 1, tol, cs[1..], e);
          assert cs == [cs[0]] + cs[1..] && cs[0] in cs;
          assert forall c :: c in cs[1..] ==> c in cs;
        }
      }
    }
  }

  lemma NoText(s: seq<byte>, i: nat, tol: bool)
    ensures DecodeInt(s, i, tol).Ok? ==> i < |s| && PeekType(s, i) != TSTR
    ensures DecodeUint(s, i, tol).Ok? ==> i < |s| && PeekType(s, i) != TSTR
  {
  }

  lemma CritIsList(s: seq<byte>, i: nat, tol: bool, cs: seq<i64>, e: nat)
    ensures CritValue(s, i, tol) == Ok(cs, e) <==> CritStands(s, i, cs, e, tol)
  {
    hide DecodeArray, CritLabels, IntsStand;
    if DecodeArray(s, i, tol).Ok? {
      CritExactly(s, DecodeArray(s, i, tol).next, DecodeArray(s, i, tol).value, tol, cs, e);
    }
  }

  lemma CritEntry(s: seq<byte>, i: nat, tol: bool, e: nat)
    ensures CritValue(s, i, tol).Ok? && CritValue(s, i, tol).next == e <==> exists cs :: CritStands(s, i, cs, e, tol)
  {
    hide CritValue, CritStands;
    var r := CritValue(s, i, tol);
    if r.Ok? {
      CritIsList(s, i, tol, r.value, r.next);
    }
    if cs :| CritStands(s, i, cs, e, tol) {
      CritIsList(s, i, tol, cs, e);
    }
  }

  lemma NumberEntry(s: seq<byte>, i: nat, tol: bool, e: nat)
    ensures AlgValue(s, i, tol).Ok? && AlgValue(s, i, tol).next == e
       <==> ValueStands(s, i, IntLabel(1), e, true, tol)
    ensures ContentTypeValue(s, i, tol).Ok? && ContentTypeValue(s, i, tol).next == e
       <==> ValueStands(s, i, IntLabel(3), e, true, tol)
  {
    hide DecodeInt, DecodeUint, Skip;
    NoText(s, i, tol);
    NoSkip(s, i, tol);
  }

  lemma NoSkip(s: seq<byte>, i: nat, tol: bool)
    ensures Skip(s, i, tol).Ok? ==> i < |s|
  {
  }

  lemma ValueExactly(s: seq<byte>, i: nat, b: Bucket, lbl: Label, tol: bool, e: nat)
    requires b != Counter
    ensures Value(s, i, b, lbl, tol) == Ok((), e) <==> ValueStands(s, i, lbl, e, b == Protected, tol)
  {
    hide DecodeInt, DecodeUint, DecodeBstr, Skip, CritValue, CritStands, AlgValue, ContentTypeValue, TextStands;
    CritEntry(s, i, tol, e);
    NumberEntry(s, i, tol, e);
    assert Skip(s, i, tol).Ok? ==> Skip(s, i, tol).value == ();
  }

  /** What the labels of a bucket may be: distinct, none of them `seen`, and 2 only where it is protected. */
  predicate LabelsOk(es: seq<Entry>, seen: set<Label>, isProtected: bool) {
    && (forall a, b :: 0 <= a < b < |es| ==> es[a].lbl != es[b].lbl)
    && forall k :: 0 <= k < |es| ==> es[k].lbl !in seen && (es[k].lbl == IntLabel(2) ==> isProtected)
  }

  lemma LabelsOkCons(es: seq<Entry>, seen: set<Label>, isProtected: bool)
    requires es != []
    ensures LabelsOk(es, seen, isProtected)
       <==> es[0].lbl !in seen && (es[0].lbl == IntLabel(2) ==> isProtected) && LabelsOk(es[1..], seen + {es[0].lbl}, isProtected)
  {
    assert forall k :: 0 <= k < |es[1..]| ==> es[1..][k] == es[k + 1];
    if LabelsOk(es[1..], seen + {es[0].lbl}, isProtected) && es[0].lbl !in seen && (es[0].lbl == IntLabel(2) ==> isProtected) {
      forall k | 0 <= k < |es|
        ensures es[k].lbl !in seen && (es[k].lbl == IntLabel(2) ==> isProtected) && (k > 0 ==> es[0].lbl != es[k].lbl)
      {
        if k > 0 {
          assert es[1..][k - 1].lbl !in seen + {es[0].lbl};
        }
      }
      forall a, b | 0 <= a < b < |es|
        ensures es[a].lbl != es[b].lbl
      {
        if a > 0 {
          assert es[1..][a - 1].lbl != es[1..][b - 1].lbl;
        }
      }
    }
  }

  lemma {:induction false} WalkStands(s: seq<byte>, i: nat, n: nat, b: Bucket, seen: set<Label>, tol: bool, es: seq<Entry>,
                                      e: nat)
    requires b != Counter && Walk(s, i, n, b, seen, tol) == Ok(es, e)
    ensures |es| == n && EntriesStand(s, i, es, e, b == Protected, tol) && LabelsOk(es, seen, b == Protected)
    decreases n
  {
    hide Walk, DecodeLabel, Value, ValueStands, LabelsOk, Labels;
    if n == 0 {
      WalkNone(s, i, b, seen, tol);
      NoneOk(seen, b == Protected);
    } else {
      WalkStep(s, i, n, b, seen, tol);
      ValueExactly(s, es[0].valueAt, b, es[0].lbl, tol, es[0].end);
      ValueEnds(s, es[0].valueAt, b, es[0].lbl, tol);
      WalkStands(s, es[0].end, n - 1, b, seen + {es[0].lbl}, tol, es[1..], e);
      LabelsOkCons(es, seen, b == Protected);
    }
  }

  lemma {:induction false} StandsWalk(s: seq<byte>, i: nat, b: Bucket, seen: set<Label>, tol: bool, es: seq<Entry>, e: nat)
    requires b != Counter && EntriesStand(s, i, es, e, b == Protected, tol) && LabelsOk(es, seen, b == Protected)
    ensures Walk(s, i, |es|, b, seen, tol) == Ok(es, e)
    decreases |es|
  {
    hide Walk, DecodeLabel, Value, ValueStands, LabelsOk, Labels;
    if es == [] {
      WalkNone(s, i, b, seen, tol);
    } else {
      var x := es[0];
      LabelsOkCons(es, seen, b == Protected);
      EndAfter(s, x.valueAt, x.lbl, x.end, b == Protected, tol);
      ValueExactly(s, x.valueAt, b, x.lbl, tol, x.end);
      StandsWalk(s, x.end, b, seen + {x.lbl}, tol, es[1..], e);
      WalkCons(s, i, |es|, b, seen, tol, x.lbl, x.valueAt, x.end);
      assert es == [x] + es[1..] && x == Entry(x.lbl, i, x.valueAt, x.end);
    }
  }

  lemma WalkExactly(s: seq<byte>, i: nat, n: nat, b: Bucket, seen: set<Label>, tol: bool, es: seq<Entry>, e: nat)
    requires b != Counter
    ensures Walk(s, i, n, b, seen, tol) == Ok(es, e)
       <==> |es| == n && EntriesStand(s, i, es, e, b == Protected, tol) && LabelsOk(es, seen, b == Protected)
  {
    hide Walk, EntriesStand, LabelsOk;
    if Walk(s, i, n, b, seen, tol) == Ok(es, e) {
      WalkStands(s, i, n, b, seen, tol, es, e);
    }
    if |es| == n && EntriesStand(s, i, es, e, b == Protected, tol) && LabelsOk(es, seen, b == Protected) {
      StandsWalk(s, i, b, seen, tol, es, e);
    }
  }

  lemma NoneOk(seen: set<Label>, isProtected: bool)
    ensures LabelsOk([], seen, isProtected)
  {
  }

  lemma ValueEnds(s: seq<byte>, i: nat, b: Bucket, lbl: Label, tol: bool)
    ensures Value(s, i, b, lbl, tol).Ok? ==> Value(s, i, b, lbl, tol) == Ok((), Value(s, i, b, lbl, tol).next)
  {
    hide Value;
    assert Value(s, i, b, lbl, tol).Ok? ==> Value(s, i, b, lbl, tol).value == ();
  }

  /** A value ends behind its start. */
  lemma EndAfter(s: seq<byte>, i: nat, lbl: Label, e: int, isProtected: bool, tol: bool)
    requires ValueStands(s, i, lbl, e, isProtected, tol)
    ensures e > i
  {
    hide DecodeInt, DecodeUint, DecodeBstr, Skip, CritStands;
    if lbl == IntLabel(2) && isProtected {
      var cs :| CritStands(s, i, cs, e, tol);
      CritEnds(s, i, cs, e, tol);
    }
  }

  lemma {:induction false} IntsEnd(s: seq<byte>, i: nat, cs: seq<i64>, e: int, tol: bool)
    requires IntsStand(s, i, cs, e, tol)
    ensures e >= i
    decreases |cs|
  {
    hide DecodeInt;
    if cs != [] {
      IntsEnd(s, DecodeInt(s, i, tol).next, cs[1..], e, tol);
    }
  }

  lemma CritEnds(s: seq<byte>, i: nat, cs: seq<i64>, e: int, tol: bool)
    requires CritStands(s, i, cs, e, tol)
    ensures e > i
  {
    hide DecodeArray, IntsStand;
    IntsEnd(s, DecodeArray(s, i, tol).next, cs, e, tol);
  }

  lemma MapExactly(s: seq<byte>, i: nat, b: Bucket, seen: set<Label>, tol: bool, es: seq<Entry>, e: nat)
    requires b != Counter
    ensures WalkMap(s, i, b, seen, tol) == Ok(es, e)
       <==> MapStands(s, i, es, e, b == Protected, tol) && LabelsOk(es, seen, b == Protected)
  {
    hide DecodeMap, Walk, EntriesStand, LabelsOk;
    var m := DecodeMap(s, i, tol);
    if m.Ok? {
      WalkExactly(s, m.next, m.value, b, seen, tol, es, e);
    }
  }

  // ----- Protected and unprotected buckets -----

  /** There is an entry with this label. */
  predicate There(es: seq<Entry>, n: i64) {
    exists k :: 0 <= k < |es| && es[k].lbl == IntLabel(n)
  }

  /** Every critical label is there, and a critical content type is a number. */
  ghost predicate CritKept(s: seq<byte>, es: seq<Entry>, tol: bool) {
    forall k, cs ::
      0 <= k < |es| && es[k].lbl == IntLabel(2) && es[k].valueAt >= 0 && CritStands(s, es[k].valueAt, cs, es[k].end, tol) ==>
        && (forall c :: c in cs ==> There(es, c))
        && (3 in cs ==> exists j :: 0 <= j < |es| && es[j].lbl == IntLabel(3) && NumberAt(s, es[j].valueAt, tol))
  }

  predicate NumberAt(s: seq<byte>, i: int, tol: bool) {
    i >= 0 && DecodeUint(s, i, tol).Ok?
  }

  /** The IV and the Partial IV exclude each other. */
  predicate OneIv(ls: set<Label>) {
    !(IntLabel(5) in ls && IntLabel(6) in ls)
  }

  lemma ThereIs(es: seq<Entry>, n: i64)
    ensures There(es, n) <==> IntLabel(n) in Labels(es)
  {
  }

  lemma {:induction false} StandsAt(s: seq<byte>, es: seq<Entry>, e: int, isProtected: bool, tol: bool, i: int, k: nat)
    requires EntriesStand(s, i, es, e, isProtected, tol) && k < |es|
    ensures 0 <= es[k].at < es[k].valueAt && ValueStands(s, es[k].valueAt, es[k].lbl, es[k].end, isProtected, tol)
    decreases |es|
  {
    hide DecodeLabel, ValueStands;
    if k > 0 {
      StandsAt(s, es[1..], e, isProtected, tol, es[0].end, k - 1);
    }
  }

  lemma Found(es: seq<Entry>, seen: set<Label>, isProtected: bool, k: nat)
    requires LabelsOk(es, seen, isProtected) && k < |es|
    ensures Find(es, es[k].lbl) == Some(es[k])
    ensures forall j :: 0 <= j < |es| && es[j].lbl == es[k].lbl ==> j == k
  {
    hide Find;
    FindUnique(es, k);
  }

  lemma MissingIs(es: seq<Entry>, n: i64)
    ensures There(es, n) <==> IntLabel(n) in Labels(es)
    ensures !There(es, n) ==> Find(es, IntLabel(n)) == None
  {
    hide Find;
    ThereIs(es, n);
  }

  /** The list of critical labels in the map. */
  lemma CritOf(s: seq<byte>, es: seq<Entry>, e: int, tol: bool, i: int, k: nat)
    requires EntriesStand(s, i, es, e, true, tol) && LabelsOk(es, {}, true) && k < |es| && es[k].lbl == IntLabel(2)
    ensures es[k].valueAt >= 0
    ensures forall cs :: CritStands(s, es[k].valueAt, cs, es[k].end, tol) <==> cs == CritField(s, es, tol)
  {
    hide CritStands, CritValue, EntriesStand, Find, LabelsOk;
    StandsAt(s, es, e, true, tol, i, k);
    Found(es, {}, true, k);
    EndAfter(s, es[k].valueAt, es[k].lbl, es[k].end, true, tol);
    CritEntry(s, es[k].valueAt, tol, es[k].end);
    forall cs
      ensures CritStands(s, es[k].valueAt, cs, es[k].end, tol) <==> cs == CritField(s, es, tol)
    {
      CritIsList(s, es[k].valueAt, tol, cs, es[k].end);
    }
  }

  lemma NoCrit(s: seq<byte>, es: seq<Entry>, tol: bool)
    requires !There(es, 2)
    ensures CritField(s, es, tol) == [] && CritKept(s, es, tol)
  {
    hide Find, CritStands, NumberAt;
    MissingIs(es, 2);
  }

  /** Whether the content type is a number. */
  lemma NumberIs(s: seq<byte>, es: seq<Entry>, e: int, tol: bool, i: int)
    requires EntriesStand(s, i, es, e, true, tol) && LabelsOk(es, {}, true)
    ensures ContentTypeField(s, es, tol).Some?
       <==> exists j :: 0 <= j < |es| && es[j].lbl == IntLabel(3) && NumberAt(s, es[j].valueAt, tol)
  {
    hide EntriesStand, Find, LabelsOk, DecodeUint, Skip, Labels;
    MissingIs(es, 3);
    if There(es, 3) {
      var k :| 0 <= k < |es| && es[k].lbl == IntLabel(3);
      StandsAt(s, es, e, true, tol, i, k);
      Found(es, {}, true, k);
      NoText(s, es[k].valueAt, tol);
    }
  }

  /** The critical labels that are collected are those that stand in the map. */
  lemma CritIs(s: seq<byte>, es: seq<Entry>, e: int, tol: bool, i: int)
    requires EntriesStand(s, i, es, e, true, tol) && LabelsOk(es, {}, true)
    ensures var cs := CritField(s, es, tol);
      CritKept(s, es, tol)
      <==> (forall k :: 0 <= k < |cs| ==> IntLabel(cs[k]) in Labels(es))
           && (3 in cs ==> ContentTypeField(s, es, tol).Some?)
  {
    hide CritStands, ValueStands, NumberAt, EntriesStand, There, Labels, LabelsOk, CritField, ContentTypeField;
    forall n: i64
      ensures There(es, n) <==> IntLabel(n) in Labels(es)
    {
      MissingIs(es, n);
    }
    NumberIs(s, es, e, tol, i);
    if There(es, 2) {
      var k := Placed(es, 2);
      CritOf(s, es, e, tol, i, k);
      Found(es, {}, true, k);
      OneList(s, es, tol, k);
    } else {
      NoCrit(s, es, tol);
    }
  }

  lemma Placed(es: seq<Entry>, n: i64) returns (k: nat)
    requires There(es, n)
    ensures k < |es| && es[k].lbl == IntLabel(n)
  {
    var j :| 0 <= j < |es| && es[j].lbl == IntLabel(n);
    k := j;
  }

  lemma OneList(s: seq<byte>, es: seq<Entry>, tol: bool, k: nat)
    requires k < |es| && es[k].lbl == IntLabel(2) && es[k].valueAt >= 0
    requires forall j :: 0 <= j < |es| && es[j].lbl == es[k].lbl ==> j == k
    requires forall cs :: CritStands(s, es[k].valueAt, cs, es[k].end, tol) <==> cs == CritField(s, es, tol)
    ensures var cs := CritField(s, es, tol);
      CritKept(s, es, tol)
      <==> (forall c :: c in cs ==> There(es, c))
           && (3 in cs ==> exists j :: 0 <= j < |es| && es[j].lbl == IntLabel(3) && NumberAt(s, es[j].valueAt, tol))
  {
    hide CritStands, NumberAt, There, CritField;
    var cs := CritField(s, es, tol);
    assert CritStands(s, es[k].valueAt, cs, es[k].end, tol);
    if (forall c :: c in cs ==> There(es, c))
       && (3 in cs ==> exists j :: 0 <= j < |es| && es[j].lbl == IntLabel(3) && NumberAt(s, es[j].valueAt, tol)) {
      forall i, ds | 0 <= i < |es| && es[i].lbl == IntLabel(2) && es[i].valueAt >= 0
                     && CritStands(s, es[i].valueAt, ds, es[i].end, tol)
        ensures i == k && ds == cs
      {
        assert es[i].lbl == es[k].lbl;
      }
    }
  }

  lemma RulesAre(es: seq<Entry>)
    ensures HasCounterLabel(Labels(es)) <==> There(es, 7) || There(es, 9) || There(es, 11) || There(es, 12)
    ensures There(es, 5) <==> IntLabel(5) in Labels(es)
    ensures There(es, 6) <==> IntLabel(6) in Labels(es)
  {
    hide Labels, There;
    MissingIs(es, 5);
    MissingIs(es, 6);
    MissingIs(es, 7);
    MissingIs(es, 9);
    MissingIs(es, 11);
    MissingIs(es, 12);
  }

  /** A protected bucket is accepted, with these entries, if and only if it is empty and there are none, or it is one
      map of them to its end, the labels are distinct, every critical label is there and a critical content type
      is a number, no countersignature is among them, and IV and Partial IV exclude each other. */
  lemma ProtectedExactly(data: seq<byte>, es: seq<Entry>, tol: bool)
    ensures ProtectedHdr(data, tol) == Ok(es, |data|)
       <==> if data == [] then es == []
            else
              && MapStands(data, 0, es, |data|, true, tol) && LabelsOk(es, {}, true) && CritKept(data, es, tol)
              && !There(es, 7) && !There(es, 9) && !There(es, 11) && !There(es, 12) && !(There(es, 5) && There(es, 6))
  {
    hide WalkMap, EntriesStand, LabelsOk, CritKept, There, CritField, ContentTypeField, Labels, HasCounterLabel;
    MapExactly(data, 0, Protected, {}, tol, es, |data|);
    RulesAre(es);
    if MapStands(data, 0, es, |data|, true, tol) && LabelsOk(es, {}, true) {
      CritIs(data, es, |data|, tol, DecodeMap(data, 0, tol).next);
    }
  }

  /** An unprotected bucket is accepted, with these entries and up to `e`, if and only if it is a map of them, the
      labels are distinct, none of them protected, none the critical labels, and IV and Partial IV exclude
      each other in both buckets together. */
  lemma UnprotectedExactly(s: seq<byte>, i: nat, prot: set<Label>, es: seq<Entry>, e: nat, tol: bool)
    ensures UnprotectedHdr(s, i, prot, tol) == Ok(es, e)
       <==> && MapStands(s, i, es, e, false, tol) && LabelsOk(es, prot, false)
            && OneIv(prot + Labels(es))
  {
    hide WalkMap, MapStands, LabelsOk, Labels;
    MapExactly(s, i, Unprotected, prot, tol, es, e);
  }
}
