/**
 Header maps (section 3 of RFC 9052) as functions of the bytes: one walk over the
 entries of a map, with the value decoder each label asks for, and the rules a
 protected and an unprotected bucket keep on top of it.
 */
module Header {
  import opened Wire
  import opened Cbor

  const ALG := 1
  const CRIT := 2
  const CONTENT_TYPE := 3
  const KID := 4
  const IV := 5
  const PARTIAL_IV := 6
  const COUNTERSIGNATURE_LEGACY: i64 := 7
  const COUNTERSIGNATURE0_LEGACY: i64 := 9
  const COUNTERSIGNATURE_V2: i64 := 11
  const COUNTERSIGNATURE0_V2: i64 := 12
  const X5CHAIN := 33

  /** HSS-LMS signatures (RFC 8778). */
  const ALG_HSS_LMS: i64 := -46

  /** The three maps that are walked: the two header buckets, and the unprotected
      bucket once more when its countersignatures are located. */
  datatype Bucket = Protected | Unprotected | Counter

  /** An entry of a map: its label, and where the label, the value and the next entry start. */
  datatype Entry = Entry(lbl: Label, at: int, valueAt: int, end: int)

  predicate InInt32(n: int) {
    -INT32_MAX - 1 <= n <= INT32_MAX
  }

  // ----- Values -----

  /** An algorithm: an int32, or a text that is skipped. */
  function AlgValue(s: seq<byte>, i: nat, tol: bool): (r: Dec<Option<i64>>)
    ensures r.Ok? ==> i < r.next <= |s|
    ensures r.Ok? && r.value.Some? ==> InInt32(r.value.value)
  {
    if PeekType(s, i) == TSTR then
      var (_, j) :- Skip(s, i, tol);
      Ok(None, j)
    else
      var (n, j) :- DecodeInt(s, i, tol);
      if !InInt32(n) then Err(CoseBadAlg) else Ok(Some(n), j)
  }

  /** A content type: an int32 that is not negative, or a text that is skipped. */
  function ContentTypeValue(s: seq<byte>, i: nat, tol: bool): (r: Dec<Option<u64>>)
    ensures r.Ok? ==> i < r.next <= |s|
  {
    if PeekType(s, i) == TSTR then
      var (_, j) :- Skip(s, i, tol);
      Ok(None, j)
    else
      var (n, j) :- DecodeUint(s, i, tol);
      if n > INT32_MAX then Err(CoseBadHdr) else Ok(Some(n), j)
  }

  /** `n` critical labels, each one that the library processes. */
  function CritLabels(s: seq<byte>, i: nat, n: nat, tol: bool): (r: Dec<seq<i64>>)
    ensures r.Ok? ==> |r.value| == n && i + n <= r.next && (n > 0 ==> r.next <= |s|)
    ensures r.Ok? ==> forall c :: c in r.value ==> 1 <= c <= 6
    decreases n
  {
    if n == 0 then Ok([], i)
    else if i >= |s| || PeekType(s, i) == TSTR then Err(CoseBadHdr)
    else
      var (c, j) :- DecodeInt(s, i, tol);
      if c < 1 || c > 6 then Err(CoseBadHdr)
      else
        var (cs, k) :- CritLabels(s, j, n - 1, tol);
        Ok([c] + cs, k)
  }

  function CritValue(s: seq<byte>, i: nat, tol: bool): (r: Dec<seq<i64>>)
    ensures r.Ok? ==> i < r.next <= |s|
    ensures r.Ok? ==> forall c :: c in r.value ==> 1 <= c <= 6
  {
    var (n, j) :- DecodeArray(s, i, tol);
    if n == 0 || n > MAX_MAP_ITEMS then Err(CoseBadHdr) else CritLabels(s, j, n, tol)
  }

  /** A value of the unprotected bucket, looked at for countersignatures only. */
  function CounterValue(s: seq<byte>, i: nat, lbl: Label): (r: Dec<()>)
    ensures r.Ok? ==> i < r.next <= |s|
  {
    var (_, j) :- Skip(s, i, false);
    if (lbl == IntLabel(COUNTERSIGNATURE_V2) || lbl == IntLabel(COUNTERSIGNATURE_LEGACY))
       && PeekType(s, i) != ARRAY then Err(CborMalformed)
    else if (lbl == IntLabel(COUNTERSIGNATURE0_V2) || lbl == IntLabel(COUNTERSIGNATURE0_LEGACY))
            && PeekType(s, i) != BSTR then Err(CborMalformed)
    else Ok((), j)
  }

  /** The value of an entry: its end, or the error its decoder gives. */
  function Value(s: seq<byte>, i: nat, b: Bucket, lbl: Label, tol: bool): (r: Dec<()>)
    ensures r.Ok? ==> i < r.next <= |s|
  {
    if b == Counter then CounterValue(s, i, lbl)
    else if lbl == IntLabel(ALG) then
      var (_, j) :- AlgValue(s, i, tol);
      Ok((), j)
    else if lbl == IntLabel(CRIT) && b == Protected then
      var (_, j) :- CritValue(s, i, tol);
      Ok((), j)
    else if lbl == IntLabel(CONTENT_TYPE) then
      var (_, j) :- ContentTypeValue(s, i, tol);
      Ok((), j)
    else if lbl == IntLabel(KID) || lbl == IntLabel(IV) || lbl == IntLabel(PARTIAL_IV) then
      var (_, j) :- DecodeBstr(s, i, tol);
      Ok((), j)
    else Skip(s, i, tol)
  }

  // ----- Entries -----

  /** The next `n` entries of a map, none with a label in `seen` or with an earlier label. */
  function Walk(s: seq<byte>, i: nat, n: nat, b: Bucket, seen: set<Label>, tol: bool): (r: Dec<seq<Entry>>)
    ensures r.Ok? ==> |r.value| == n && i + 2 * n <= r.next && (n > 0 ==> r.next <= |s|)
    decreases n
  {
    if n == 0 then Ok([], i)
    else
      var (lbl, j) :- DecodeLabel(s, i, tol);
      if b != Protected && lbl == IntLabel(CRIT) then Err(CoseBadHdr)
      else if lbl in seen then Err(CborMalformed)
      else
        var (_, k) :- Value(s, j, b, lbl, tol);
        var (es, e) :- Walk(s, k, n - 1, b, seen + {lbl}, tol);
        Ok([Entry(lbl, i, j, k)] + es, e)
  }

  /** The entries of the map at `i`. */
  function WalkMap(s: seq<byte>, i: nat, b: Bucket, seen: set<Label>, tol: bool): (r: Dec<seq<Entry>>)
    ensures r.Ok? ==> i < r.next <= |s| && |r.value| <= MAX_MAP_ITEMS
  {
    var (n, j) :- DecodeMap(s, i, tol);
    if n > MAX_MAP_ITEMS then Err(CborMalformed) else Walk(s, j, n, b, seen, tol)
  }

  function Labels(es: seq<Entry>): (ls: set<Label>)
    ensures forall l :: l in ls <==> exists k :: 0 <= k < |es| && es[k].lbl == l
  {
    set k | 0 <= k < |es| :: es[k].lbl
  }

  /** The entry with a label, when there is one. */
  function Find(es: seq<Entry>, lbl: Label): (r: Option<Entry>)
    ensures r.None? <==> lbl !in Labels(es)
    ensures r.Some? ==> r.value in es && r.value.lbl == lbl
  {
    if es == [] then None
    else if es[|es| - 1].lbl == lbl then Some(es[|es| - 1])
    else
      assert es == es[..|es| - 1] + [es[|es| - 1]];
      Find(es[..|es| - 1], lbl)
  }

  /** The content of the byte string under an integer label. */
  function BstrField(s: seq<byte>, es: seq<Entry>, n: i64, tol: bool): (r: Option<seq<byte>>)
  {
    match Find(es, IntLabel(n))
    case None => None
    case Some(e) =>
      if e.valueAt >= 0 && DecodeBstr(s, e.valueAt, tol).Ok? then Some(DecodeBstr(s, e.valueAt, tol).value)
      else None
  }

  /** The integer algorithm of a bucket. */
  function AlgField(s: seq<byte>, es: seq<Entry>, tol: bool): (r: Option<i64>)
  {
    match Find(es, IntLabel(ALG))
    case None => None
    case Some(e) => if e.valueAt >= 0 && AlgValue(s, e.valueAt, tol).Ok? then AlgValue(s, e.valueAt, tol).value else None
  }

  function ContentTypeField(s: seq<byte>, es: seq<Entry>, tol: bool): (r: Option<u64>)
  {
    match Find(es, IntLabel(CONTENT_TYPE))
    case None => None
    case Some(e) =>
      if e.valueAt >= 0 && ContentTypeValue(s, e.valueAt, tol).Ok? then ContentTypeValue(s, e.valueAt, tol).value
      else None
  }

  function CritField(s: seq<byte>, es: seq<Entry>, tol: bool): (r: seq<i64>)
  {
    match Find(es, IntLabel(CRIT))
    case None => []
    case Some(e) => if e.valueAt >= 0 && CritValue(s, e.valueAt, tol).Ok? then CritValue(s, e.valueAt, tol).value else []
  }

  // ----- Buckets -----

  predicate HasCounterLabel(ls: set<Label>) {
    || IntLabel(COUNTERSIGNATURE_V2) in ls || IntLabel(COUNTERSIGNATURE0_V2) in ls
    || IntLabel(COUNTERSIGNATURE_LEGACY) in ls || IntLabel(COUNTERSIGNATURE0_LEGACY) in ls
  }

  /** The protected bucket: the content of its byte string, which may be empty. */
  function ProtectedHdr(data: seq<byte>, tol: bool): (r: Dec<seq<Entry>>)
    ensures r.Ok? ==> r.next == |data| && |r.value| <= MAX_MAP_ITEMS
  {
    if data == [] then Ok([], 0)
    else
      var (es, e) :- WalkMap(data, 0, Protected, {}, tol);
      var crit := CritField(data, es, tol);
      if exists k :: 0 <= k < |crit| && IntLabel(crit[k]) !in Labels(es) then Err(CoseBadHdr)
      else if CONTENT_TYPE in crit && ContentTypeField(data, es, tol).None? then Err(CoseBadHdr)
      else if HasCounterLabel(Labels(es)) then Err(CoseBadHdr)
      else if IntLabel(IV) in Labels(es) && IntLabel(PARTIAL_IV) in Labels(es) then Err(CoseBadHdr)
      else if e != |data| then Err(CborMalformed)
      else Ok(es, e)
  }

  /** The unprotected bucket at `i`, next to a protected bucket with labels `prot`. */
  function UnprotectedHdr(s: seq<byte>, i: nat, prot: set<Label>, tol: bool): (r: Dec<seq<Entry>>)
    ensures r.Ok? ==> i < r.next <= |s| && |r.value| <= MAX_MAP_ITEMS
  {
    var (es, e) :- WalkMap(s, i, Unprotected, prot, tol);
    var ls := prot + Labels(es);
    if IntLabel(IV) in ls && IntLabel(PARTIAL_IV) in ls then Err(CoseBadHdr) else Ok(es, e)
  }
}
