/**
 What the two header decoders leave in a record that was blank: every field is the one
 lookup of its label in both buckets of the message together.
 */
module HeaderFields {
  import opened Wire
  import opened Cbor
  import opened Header
  import opened HeaderLemmas
  import opened HeaderContext

  /** The record after the protected bucket `data` with the entries `ps`, and an unprotected
      one with the entries `us` in `s`. */
  function Recorded(data: seq<byte>, ps: seq<Entry>, s: seq<byte>, us: seq<Entry>, tol: bool): (f: Fields) {
    FieldsAfter(s, us, Unprotected, FieldsAfter(data, ps, Protected, BLANK, tol), tol)
  }

  /** Entry `k` has the label, and no other entry has it. */
  predicate OnlyEntry(es: seq<Entry>, k: nat, lbl: Label) {
    k < |es| && es[k].lbl == lbl && forall j :: 0 <= j < |es| && j != k ==> es[j].lbl != lbl
  }

  /** The bytes that entry `k` of both buckets together stands in. */
  function Home(data: seq<byte>, ps: seq<Entry>, s: seq<byte>, k: nat): (bytes: seq<byte>) {
    if k < |ps| then data else s
  }

  /** The byte string under a label: the value of its only entry, or none without one. */
  ghost predicate IsBstr(data: seq<byte>, ps: seq<Entry>, s: seq<byte>, us: seq<Entry>, n: i64, tol: bool,
                         v: Option<seq<byte>>)
  {
    var es := ps + us;
    match v
    case None => IntLabel(n) !in Labels(es)
    case Some(d) =>
      exists k: nat :: OnlyEntry(es, k, IntLabel(n)) && 0 <= es[k].valueAt <= es[k].end
                       && DecodeBstr(Home(data, ps, s, k), es[k].valueAt, tol) == Ok(d, es[k].end)
  }

  /** The algorithm: the value of its only entry, or zero without one, or when it is a text. */
  ghost predicate IsAlgorithm(data: seq<byte>, ps: seq<Entry>, s: seq<byte>, us: seq<Entry>, tol: bool, alg: i64) {
    var es := ps + us;
    if IntLabel(1) !in Labels(es) then alg == 0
    else
      exists k: nat :: OnlyEntry(es, k, IntLabel(1)) && es[k].valueAt >= 0
                       && ReadsAlg(Home(data, ps, s, k), es[k].valueAt, tol, alg, es[k].end)
  }

  predicate ReadsAlg(bytes: seq<byte>, at: nat, tol: bool, alg: i64, end: int) {
    var r := AlgValue(bytes, at, tol);
    r.Ok? && r.next == end && alg == match r.value { case Some(n) => n case None => 0 }
  }

  // ----- One bucket -----

  /** The value of an entry of a bucket, as the decoder of its label reads it. */
  lemma EntryValue(s: seq<byte>, start: nat, n: nat, b: Bucket, seen: set<Label>, tol: bool, k: nat)
    requires Walk(s, start, n, b, seen, tol).Ok? && k < n && b != Counter
    ensures var es := Walk(s, start, n, b, seen, tol).value; var e := es[k];
      && |es| == n && 0 <= e.valueAt <= e.end && Find(es, e.lbl) == Some(e)
      && (e.lbl == IntLabel(KID) || e.lbl == IntLabel(IV) || e.lbl == IntLabel(PARTIAL_IV) ==>
            DecodeBstr(s, e.valueAt, tol).Ok? && DecodeBstr(s, e.valueAt, tol).next == e.end)
      && (e.lbl == IntLabel(ALG) ==> AlgValue(s, e.valueAt, tol).Ok? && AlgValue(s, e.valueAt, tol).next == e.end)
  {
    hide Walk, Find, DecodeBstr, AlgValue, Labels;
    WalkLayout(s, start, n, b, seen, tol, k);
    WalkDistinct(s, start, n, b, seen, tol);
    FindUnique(Walk(s, start, n, b, seen, tol).value, k);
  }

  /** Both buckets of a message decode. */
  predicate BothDecode(data: seq<byte>, ps: seq<Entry>, s: seq<byte>, i: nat, us: seq<Entry>, tol: bool) {
    && ProtectedHdr(data, tol).Ok? && ps == ProtectedHdr(data, tol).value
    && UnprotectedHdr(s, i, Labels(ps), tol).Ok? && us == UnprotectedHdr(s, i, Labels(ps), tol).value
  }

  /** The buckets as walks. */
  lemma ProtectedWalk(data: seq<byte>, tol: bool)
    requires ProtectedHdr(data, tol).Ok? && data != []
    ensures var m := DecodeMap(data, 0, tol);
      m.Ok? && Walk(data, m.next, m.value, Protected, {}, tol).Ok?
      && Walk(data, m.next, m.value, Protected, {}, tol).value == ProtectedHdr(data, tol).value
  {
    hide Walk, DecodeMap, CritField, HasCounterLabel, Labels, ContentTypeField;
  }

  lemma UnprotectedWalk(s: seq<byte>, i: nat, prot: set<Label>, tol: bool)
    requires UnprotectedHdr(s, i, prot, tol).Ok?
    ensures var m := DecodeMap(s, i, tol);
      m.Ok? && Walk(s, m.next, m.value, Unprotected, prot, tol).Ok?
      && Walk(s, m.next, m.value, Unprotected, prot, tol).value == UnprotectedHdr(s, i, prot, tol).value
  {
    hide Walk, DecodeMap, Labels;
  }

  lemma EmptyProtected(tol: bool)
    ensures ProtectedHdr([], tol) == Ok([], 0)
  {
  }

  /** What distinct labels say of entry `k` of both buckets. */
  lemma JointEntry(ps: seq<Entry>, us: seq<Entry>, k: nat)
    requires DistinctLabels(ps + us) && k < |ps + us|
    ensures var e := (ps + us)[k];
      && OnlyEntry(ps + us, k, e.lbl)
      && (if k < |ps| then Find(us, e.lbl) == None else Find(ps, e.lbl) == None)
  {
    hide Find, Labels;
    var es := ps + us;
    assert forall j :: 0 <= j < |us| ==> us[j] == es[|ps| + j];
    assert forall j :: 0 <= j < |ps| ==> ps[j] == es[j];
  }

  /** The value of entry `k` of both buckets, and which of them has its label. */
  lemma JointValue(data: seq<byte>, ps: seq<Entry>, s: seq<byte>, i: nat, us: seq<Entry>, tol: bool, k: nat)
    requires BothDecode(data, ps, s, i, us, tol) && k < |ps + us|
    ensures var e := (ps + us)[k]; var home := Home(data, ps, s, k);
      && OnlyEntry(ps + us, k, e.lbl) && 0 <= e.valueAt <= e.end
      && (k < |ps| ==> Find(ps, e.lbl) == Some(e) && Find(us, e.lbl) == None)
      && (k >= |ps| ==> Find(us, e.lbl) == Some(e) && Find(ps, e.lbl) == None)
      && (e.lbl == IntLabel(KID) || e.lbl == IntLabel(IV) || e.lbl == IntLabel(PARTIAL_IV) ==>
            DecodeBstr(home, e.valueAt, tol).Ok? && DecodeBstr(home, e.valueAt, tol).next == e.end)
      && (e.lbl == IntLabel(ALG) ==>
            AlgValue(home, e.valueAt, tol).Ok? && AlgValue(home, e.valueAt, tol).next == e.end)
  {
    hide Walk, DecodeMap, DecodeBstr, AlgValue, CritField, Find, HasCounterLabel, ProtectedHdr, UnprotectedHdr, Labels,
         DistinctLabels, OnlyEntry;
    BucketsDisjoint(data, s, i, tol);
    JointEntry(ps, us, k);
    if k < |ps| {
      var m := DecodeMap(data, 0, tol);
      EmptyProtected(tol);
      ProtectedWalk(data, tol);
      EntryValue(data, m.next, m.value, Protected, {}, tol, k);
    } else {
      var m := DecodeMap(s, i, tol);
      UnprotectedWalk(s, i, Labels(ps), tol);
      EntryValue(s, m.next, m.value, Unprotected, Labels(ps), tol, k - |ps|);
    }
  }

  /** Every field of the record is the lookup of its label in both buckets together. */
  lemma FieldsAreLookups(data: seq<byte>, ps: seq<Entry>, s: seq<byte>, i: nat, us: seq<Entry>, tol: bool)
    requires BothDecode(data, ps, s, i, us, tol)
    ensures var f := Recorded(data, ps, s, us, tol);
      && IsBstr(data, ps, s, us, 4, tol, f.kid)
      && IsBstr(data, ps, s, us, 5, tol, f.iv)
      && IsBstr(data, ps, s, us, 6, tol, f.partialIv)
      && IsAlgorithm(data, ps, s, us, tol, f.alg)
  {
    hide IsBstr, IsAlgorithm, BothDecode;
    BstrIsLookup(data, ps, s, i, us, tol, KID);
    BstrIsLookup(data, ps, s, i, us, tol, IV);
    BstrIsLookup(data, ps, s, i, us, tol, PARTIAL_IV);
    AlgIsLookup(data, ps, s, i, us, tol);
  }

  lemma BstrIsLookup(data: seq<byte>, ps: seq<Entry>, s: seq<byte>, i: nat, us: seq<Entry>, tol: bool, n: i64)
    requires BothDecode(data, ps, s, i, us, tol) && (n == KID || n == IV || n == PARTIAL_IV)
    ensures var v := BstrField(s, us, n, tol);
      IsBstr(data, ps, s, us, n, tol, if v.Some? then v else BstrField(data, ps, n, tol))
  {
    hide BothDecode, DecodeBstr, OnlyEntry, Labels, Find;
    LabelsJoin(ps, us);
    if IntLabel(n) in Labels(ps + us) {
      var k :| 0 <= k < |ps + us| && (ps + us)[k].lbl == IntLabel(n);
      JointValue(data, ps, s, i, us, tol, k);
    }
  }

  lemma AlgIsLookup(data: seq<byte>, ps: seq<Entry>, s: seq<byte>, i: nat, us: seq<Entry>, tol: bool)
    requires BothDecode(data, ps, s, i, us, tol)
    ensures IsAlgorithm(data, ps, s, us, tol, Recorded(data, ps, s, us, tol).alg)
  {
    hide BothDecode, AlgValue, OnlyEntry, Labels, Find;
    LabelsJoin(ps, us);
    if IntLabel(ALG) in Labels(ps + us) {
      var k :| 0 <= k < |ps + us| && (ps + us)[k].lbl == IntLabel(ALG);
      JointValue(data, ps, s, i, us, tol, k);
    }
  }
}
