/**
 COSE_Signature and COSE_recipient entries that are checked but not selected
 (sections 4.1 and 5.1 of RFC 9052), and the recipient-mode rule of section 8.5.
 */
module Recipients {
  import opened Wire
  import opened Cbor
  import opened CborRoundTrip
  import opened Header
  import opened HeaderLemmas

  const ALG_UNSET := 0
  const ALG_DIRECT := -6

  /** The algorithm read so far, and whether its label was met. */
  datatype AlgSeen = AlgSeen(alg: i64, found: bool)

  predicate IsAlg(lbl: Label) {
    lbl == IntLabel(ALG)
  }

  /** `n` entries of a header map of which only the algorithm is looked at. */
  function SkippedEntries(s: seq<byte>, i: nat, n: nat, a: AlgSeen): (r: Dec<AlgSeen>)
    ensures r.Ok? ==> i + 2 * n <= r.next && (n > 0 ==> r.next <= |s|)
    decreases n
  {
    if n == 0 then Ok(a, i)
    else
      var (lbl, j) :- DecodeLabel(s, i, false);
      if IsAlg(lbl) then
        if a.found then Err(CborMalformed)
        else
          var (alg, k) :- AlgValue(s, j, false);
          SkippedEntries(s, k, n - 1, AlgSeen(if alg.Some? then alg.value else a.alg, true))
      else
        var (_, k) :- Skip(s, j, false);
        SkippedEntries(s, k, n - 1, a)
  }

  function SkippedMap(s: seq<byte>, i: nat, a: AlgSeen): (r: Dec<AlgSeen>)
    ensures r.Ok? ==> i < r.next <= |s|
  {
    var (n, j) :- DecodeMap(s, i, false);
    SkippedEntries(s, j, n, a)
  }

  /** The protected bucket of a recipient, empty or a whole map. */
  function SkippedProtected(prot: seq<byte>): (r: Dec<AlgSeen>) {
    if prot == [] then Ok(AlgSeen(ALG_UNSET, false), 0)
    else
      var (a, e) :- SkippedMap(prot, 0, AlgSeen(ALG_UNSET, false));
      if e != |prot| then Err(CborMalformed) else Ok(a, e)
  }

  /** The three fields a COSE_recipient starts with: a Direct recipient has an empty
      protected bucket and an empty byte string, any other may have null. */
  function RecipientFields(s: seq<byte>, i: nat): (r: Dec<AlgSeen>)
    ensures r.Ok? ==> i < r.next <= |s|
  {
    var (prot, j) :- DecodeBstr(s, i, false);
    var (b, _) :- SkippedProtected(prot);
    var (a, k) :- SkippedMap(s, j, b);
    if a.alg == ALG_DIRECT then
      if prot != [] then Err(CoseBadHdr)
      else
        var (it, e) :- DecodeHead(s, k, false);
        if it.major != BSTR || it.data != [] then Err(CoseBadHdr) else Ok(a, e)
    else if k < |s| && s[k] == NULL_BYTE then Ok(a, k + 1)
    else
      var (_, e) :- DecodeBstr(s, k, false);
      Ok(a, e)
  }

  /** A COSE_Signature that is not selected. */
  function SkippedSignature(s: seq<byte>, i: nat): (r: Dec<()>)
    ensures r.Ok? ==> i < r.next <= |s|
  {
    var (n, j) :- DecodeArray(s, i, false);
    if n != 3 then Err(CborMalformed)
    else
      var (_, k) :- DecodeBstr(s, j, false);
      var (_, l) :- Skip(s, k, false);
      var (_, e) :- DecodeBstr(s, l, false);
      Ok((), e)
  }

  /** The COSE_recipient structure up to its nested recipients: how many fields it has,
      and its algorithm. */
  function RecipientHead(s: seq<byte>, i: nat): (r: Dec<(nat, i64)>)
    ensures r.Ok? ==> i < r.next <= |s| && 3 <= r.value.0 <= 4
  {
    var (n, j) :- DecodeArray(s, i, false);
    if n < 3 || n > 4 then Err(CborMalformed)
    else
      var (a, e) :- RecipientFields(s, j);
      if n == 4 && a.alg == ALG_DIRECT then Err(CoseBadHdr) else Ok((n, a.alg), e)
  }

  /** `n` recipients in a row with `d` more levels of nesting allowed: three fields, or
      four with a non-empty list of recipients as the fourth. */
  function RecipientList(s: seq<byte>, i: nat, n: nat, d: nat): (r: Dec<()>)
    ensures r.Ok? ==> i + n <= r.next && (n > 0 ==> r.next <= |s|)
    decreases |s| - i
  {
    if n == 0 then Ok((), i)
    else
      var (h, j) :- RecipientHead(s, i);
      if h.0 == 4 then
        var (m, k) :- DecodeArray(s, j, false);
        if m == 0 then Err(CborMalformed)
        else if d == 0 then Err(CborDepth)
        else
          var (_, e) :- RecipientList(s, k, m, d - 1);
          RecipientList(s, e, n - 1, d)
      else RecipientList(s, j, n - 1, d)
  }

  /** One recipient and everything nested in it: the algorithm of the outermost. */
  function SkippedRecipient(s: seq<byte>, i: nat): (r: Dec<i64>)
    ensures r.Ok? ==> i < r.next <= |s|
  {
    var (_, e) :- RecipientList(s, i, 1, CBOR_MAX_DEPTH);
    if RecipientHead(s, i).Ok? then Ok(RecipientHead(s, i).value.1, e) else Err(CborMalformed)
  }

  // ----- Framing -----

  lemma EntryStep(s: seq<byte>, i: nat, n: nat, a: AlgSeen)
    requires SkippedEntries(s, i, n, a).Ok? && n > 0
    ensures var d := DecodeLabel(s, i, false);
      && d.Ok? && i < d.next <= |s|
      && (IsAlg(d.value) ==> !a.found && AlgValue(s, d.next, false).Ok?)
      && (!IsAlg(d.value) ==> Skip(s, d.next, false).Ok?)
    ensures var d := DecodeLabel(s, i, false);
      var alg := AlgValue(s, d.next, false);
      var k := if IsAlg(d.value) then alg.next else Skip(s, d.next, false).next;
      var b := if IsAlg(d.value) then AlgSeen(if alg.value.Some? then alg.value.value else a.alg, true) else a;
      d.next < k <= SkippedEntries(s, i, n, a).next <= |s| && SkippedEntries(s, i, n, a) == SkippedEntries(s, k, n - 1, b)
  {
    hide DecodeLabel, AlgValue, Skip;
  }

  lemma EntryBack(s: seq<byte>, i: nat, n: nat, a: AlgSeen)
    requires n > 0 && DecodeLabel(s, i, false).Ok?
    requires var d := DecodeLabel(s, i, false);
      if IsAlg(d.value) then !a.found && AlgValue(s, d.next, false).Ok? else Skip(s, d.next, false).Ok?
    ensures var d := DecodeLabel(s, i, false);
      var alg := AlgValue(s, d.next, false);
      var k := if IsAlg(d.value) then alg.next else Skip(s, d.next, false).next;
      var b := if IsAlg(d.value) then AlgSeen(if alg.value.Some? then alg.value.value else a.alg, true) else a;
      SkippedEntries(s, i, n, a) == SkippedEntries(s, k, n - 1, b)
  {
    hide DecodeLabel, AlgValue, Skip;
  }

  lemma EntriesNone(s: seq<byte>, i: nat, a: AlgSeen)
    ensures SkippedEntries(s, i, 0, a) == Ok(a, i)
  {
  }

  lemma {:induction false} SkippedEntriesFraming(s: seq<byte>, i: nat, n: nat, a: AlgSeen, t: seq<byte>, j: nat)
    requires SkippedEntries(s, i, n, a).Ok? && i <= |s| && |t| <= SIZE_MAX
    requires SameSlice(s, i, t, j, SkippedEntries(s, i, n, a).next - i)
    ensures SkippedEntries(t, j, n, a)
         == Ok(SkippedEntries(s, i, n, a).value, j + (SkippedEntries(s, i, n, a).next - i))
    decreases n
  {
    hide *;
    if n == 0 {
      EntriesNone(s, i, a);
      EntriesNone(t, j, a);
      return;
    }
    EntryStep(s, i, n, a);
    var e := SkippedEntries(s, i, n, a).next;
    var d := DecodeLabel(s, i, false);
    var v := d.next;
    SameSlicePart(s, i, t, j, e - i, 0, v - i);
    LabelFraming(s, i, false, t, j);
    var alg := AlgValue(s, v, false);
    var k := if IsAlg(d.value) then alg.next else Skip(s, v, false).next;
    SameSlicePart(s, i, t, j, e - i, v - i, k - v);
    if IsAlg(d.value) {
      AlgFraming(s, v, false, t, j + (v - i));
    } else {
      ItemFraming(s, v, false, t, j + (v - i));
    }
    EntryBack(t, j, n, a);
    SameSlicePart(s, i, t, j, e - i, k - i, e - k);
    var b := if IsAlg(d.value) then AlgSeen(if alg.value.Some? then alg.value.value else a.alg, true) else a;
    SkippedEntriesFraming(s, k, n - 1, b, t, j + (k - i));
  }

  lemma SkippedMapFraming(s: seq<byte>, i: nat, a: AlgSeen, t: seq<byte>, j: nat)
    requires SkippedMap(s, i, a).Ok? && |t| <= SIZE_MAX
    requires SameSlice(s, i, t, j, SkippedMap(s, i, a).next - i)
    ensures SkippedMap(t, j, a) == Ok(SkippedMap(s, i, a).value, j + (SkippedMap(s, i, a).next - i))
  {
    hide DecodeContainer, SkippedEntries, SameSlice;
    var e := SkippedMap(s, i, a).next;
    var n, k := DecodeMap(s, i, false).value, DecodeMap(s, i, false).next;
    ContainerFraming(s, i, MAP, false, t, j, e - i);
    SameSlicePart(s, i, t, j, e - i, k - i, e - k);
    SkippedEntriesFraming(s, k, n, a, t, j + (k - i));
  }

  lemma RecipientFieldsFraming(s: seq<byte>, i: nat, t: seq<byte>, j: nat)
    requires RecipientFields(s, i).Ok? && |t| <= SIZE_MAX
    requires SameSlice(s, i, t, j, RecipientFields(s, i).next - i)
    ensures RecipientFields(t, j) == Ok(RecipientFields(s, i).value, j + (RecipientFields(s, i).next - i))
  {
    hide DecodeHead, SkippedProtected, SkippedMap, SameSlice, DecodeString;
    var e := RecipientFields(s, i).next;
    var p := DecodeBstr(s, i, false);
    SameSlicePart(s, i, t, j, e - i, 0, p.next - i);
    BstrFraming(s, i, false, t, j);
    var b := SkippedProtected(p.value).value;
    var m := SkippedMap(s, p.next, b);
    SameSlicePart(s, i, t, j, e - i, p.next - i, m.next - p.next);
    SkippedMapFraming(s, p.next, b, t, j + (p.next - i));
    var k, l := m.next, j + (m.next - i);
    SameSlicePart(s, i, t, j, e - i, k - i, e - k);
    SameSliceAt(s, k, t, l, e - k, 0);
    if m.value.alg == ALG_DIRECT {
      HeadFraming(s, k, false, t, l);
    } else if s[k] != NULL_BYTE {
      BstrFraming(s, k, false, t, l);
    }
  }

  /** The three fields take three bytes at least. */
  lemma FieldsSize(s: seq<byte>, i: nat)
    requires RecipientFields(s, i).Ok?
    ensures i + 3 <= RecipientFields(s, i).next
  {
    hide DecodeHead, SkippedProtected, SkippedEntries, DecodeContainer;
  }

  /** An array head is accepted wherever as many bytes follow as it has items. */
  lemma ArrayHeadFraming(s: seq<byte>, i: nat, t: seq<byte>, j: nat)
    requires DecodeArray(s, i, false).Ok?
    requires SameSlice(s, i, t, j, DecodeArray(s, i, false).next - i)
    requires j + (DecodeArray(s, i, false).next - i) + DecodeArray(s, i, false).value <= |t|
    ensures DecodeArray(t, j, false)
         == Ok(DecodeArray(s, i, false).value, j + (DecodeArray(s, i, false).next - i))
  {
    hide DecodeHead, SameSlice;
    HeadFraming(s, i, false, t, j);
  }

  lemma RecipientHeadFraming(s: seq<byte>, i: nat, t: seq<byte>, j: nat)
    requires RecipientHead(s, i).Ok? && |t| <= SIZE_MAX
    requires SameSlice(s, i, t, j, RecipientHead(s, i).next - i)
    requires RecipientHead(s, i).value.0 == 4 ==> j + (RecipientHead(s, i).next - i) < |t|
    ensures RecipientHead(t, j) == Ok(RecipientHead(s, i).value, j + (RecipientHead(s, i).next - i))
  {
    hide DecodeContainer, RecipientFields;
    var e := RecipientHead(s, i).next;
    var k := DecodeArray(s, i, false).next;
    FieldsSize(s, k);
    SameSlicePart(s, i, t, j, e - i, 0, k - i);
    ArrayHeadFraming(s, i, t, j);
    SameSlicePart(s, i, t, j, e - i, k - i, e - k);
    RecipientFieldsFraming(s, k, t, j + (k - i));
  }

  lemma ListStep(s: seq<byte>, i: nat, n: nat, d: nat)
    requires n > 0
    ensures var h := RecipientHead(s, i);
      RecipientList(s, i, n, d)
      == if h.Err? then Err(h.error)
         else if h.value.0 == 4 then
           var m := DecodeArray(s, h.next, false);
           if m.Err? then Err(m.error)
           else if m.value == 0 then Err(CborMalformed)
           else if d == 0 then Err(CborDepth)
           else
             var r := RecipientList(s, m.next, m.value, d - 1);
             if r.Err? then r else RecipientList(s, r.next, n - 1, d)
         else RecipientList(s, h.next, n - 1, d)
    ensures RecipientList(s, i, n, d).Ok? ==>
      var h, e := RecipientHead(s, i), RecipientList(s, i, n, d).next;
      && i < h.next <= e <= |s|
      && (h.value.0 == 4 ==>
            var m := DecodeArray(s, h.next, false);
            && m.Ok? && h.next < m.next && m.value > 0 && d > 0
            && var r := RecipientList(s, m.next, m.value, d - 1);
            r.Ok? && m.next + m.value <= r.next <= e)
  {
    hide RecipientHead, DecodeArray;
  }

  lemma ListNone(s: seq<byte>, i: nat, d: nat)
    ensures RecipientList(s, i, 0, d) == Ok((), i)
  {
  }

  lemma SkippedSignatureFraming(s: seq<byte>, i: nat, t: seq<byte>, j: nat)
    requires SkippedSignature(s, i).Ok? && |t| <= SIZE_MAX
    requires SameSlice(s, i, t, j, SkippedSignature(s, i).next - i)
    ensures SkippedSignature(t, j).Ok?
    ensures SkippedSignature(t, j).next == j + (SkippedSignature(s, i).next - i)
  {
    hide DecodeContainer, DecodeString, SkipItems;
    var e := SkippedSignature(s, i).next;
    var a := DecodeArray(s, i, false);
    var p := DecodeBstr(s, a.next, false);
    var u := Skip(s, p.next, false);
    SameSlicePart(s, i, t, j, e - i, 0, a.next - i);
    ArrayHeadFraming(s, i, t, j);
    SameSlicePart(s, i, t, j, e - i, a.next - i, p.next - a.next);
    BstrFraming(s, a.next, false, t, j + (a.next - i));
    SameSlicePart(s, i, t, j, e - i, p.next - i, u.next - p.next);
    ItemFraming(s, p.next, false, t, j + (p.next - i));
    SameSlicePart(s, i, t, j, e - i, u.next - i, e - u.next);
    BstrFraming(s, u.next, false, t, j + (u.next - i));
  }
}
