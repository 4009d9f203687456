/**
 What multi-recipient messages share (sections 5.1 and 6.1 of RFC 9052): the front of the
 message, its payload field, and its list of recipients, of which one is selected.
 */
module Messages {
  import opened Wire
  import opened Cbor
  import opened CborRoundTrip
  import opened Header
  import opened HeaderLemmas
  import opened Recipients
  import opened RecipientContext
  import opened Countersign
  import opened CountersignLemmas
  import opened CountersignLists
  import opened CountersignAdd

  // ----- Reading -----

  /** A decoded body header: the protected bucket, the entries of both, and what was read from. */
  datatype Body = Body(prot: seq<byte>, ps: seq<Entry>, us: seq<Entry>)

  /** The integer algorithm of a header: the unprotected bucket is decoded last. */
  function BodyAlg(s: seq<byte>, b: Body): (alg: i64) {
    match AlgField(s, b.us, false)
    case Some(n) => n
    case None => match AlgField(b.prot, b.ps, false) { case Some(n) => n case None => ALG_UNSET }
  }

  /** The nonce of a header. */
  function BodyIv(s: seq<byte>, b: Body): (iv: Option<seq<byte>>) {
    match BstrField(s, b.us, IV, false)
    case Some(iv) => Some(iv)
    case None => BstrField(b.prot, b.ps, IV, false)
  }

  /** Whether the protected bucket has the algorithm label. */
  predicate AlgProtected(b: Body) {
    IntLabel(ALG) in Labels(b.ps)
  }

  /** The front of a message: a tag, which may be missing, the array head, both buckets. */
  function MessageFront(s: seq<byte>, tag: u64, count: nat): (r: Dec<Body>)
    ensures r.Ok? ==> r.next <= |s|
  {
    var (_, i) :- OptionalTag(s, tag);
    var (n, j) :- DecodeArray(s, i, false);
    if n != count then Err(CborMalformed) else Buckets(s, j)
  }

  function OptionalTag(s: seq<byte>, tag: u64): (r: Dec<()>)
    ensures r.Ok? ==> r.next <= |s|
  {
    if PeekType(s, 0) == TAG then
      var (t, i) :- DecodeTag(s, 0, false);
      if t != tag then Err(CoseBadTag) else Ok((), i)
    else Ok((), 0)
  }

  function Buckets(s: seq<byte>, i: nat): (r: Dec<Body>)
    ensures r.Ok? ==> i < r.next <= |s|
  {
    var (prot, j) :- DecodeBstr(s, i, false);
    var (ps, _) :- ProtectedHdr(prot, false);
    var (us, k) :- UnprotectedHdr(s, j, Labels(ps), false);
    Ok(Body(prot, ps, us), k)
  }

  /** The payload or ciphertext: the one in the message, or null and then the detached one. */
  datatype Content = Content(bytes: seq<byte>, embedded: Option<seq<byte>>)

  function ContentField(s: seq<byte>, i: nat, detached: Option<seq<byte>>): (r: Dec<Content>)
    ensures r.Ok? ==> i < r.next <= |s|
  {
    var (it, j) :- DecodeHead(s, i, false);
    if s[i] == NULL_BYTE then
      if detached.None? then Err(DetachedPayload) else Ok(Content(detached.value, None), j)
    else if it.major != BSTR then Err(CborType)
    else Ok(Content(it.data, Some(it.data)), j)
  }

  /** `n` recipients that are not selected, with the mode that all recipients share so far. */
  function SkipOthers(s: seq<byte>, i: nat, n: nat, mode: int): (r: Dec<int>)
    ensures r.Ok? ==> i + n <= r.next && (n > 0 ==> r.next <= |s|)
    decreases n
  {
    if n == 0 then Ok(mode, i)
    else
      var (alg, j) :- SkippedRecipient(s, i);
      match NextMode(alg, mode)
      case None => Err(CoseBadAlg)
      case Some(m) => SkipOthers(s, j, n - 1, m)
  }

  // ----- Writing -----

  /** A recipient as it is written: an algorithm in the unprotected bucket, a key identifier
      unless it is empty, and a wrapped key, which is empty for a direct key. */
  datatype Outgoing = Outgoing(alg: i64, kid: Bytes, value: Bytes)

  function AlgKidMap(alg: i64, kid: Bytes): (b: seq<byte>) {
    if kid == [] then EncodeHead(MAP, 1) + EncodeInt(ALG) + EncodeInt(alg)
    else EncodeHead(MAP, 2) + EncodeInt(ALG) + EncodeInt(alg) + EncodeInt(KID) + EncodeBstr(kid)
  }

  function RecipientFront(alg: i64, kid: Bytes): (b: seq<byte>) {
    EncodeHead(ARRAY, 3) + EncodeBstr([]) + AlgKidMap(alg, kid)
  }

  function RecipientBytes(r: Outgoing): (b: seq<byte>) {
    RecipientFront(r.alg, r.kid) + EncodeBstr(r.value)
  }

  function RecipientsBytes(rs: seq<Outgoing>): (b: seq<byte>) {
    if rs == [] then [] else RecipientBytes(rs[0]) + RecipientsBytes(rs[1..])
  }

  lemma {:induction false} RecipientsNext(rs: seq<Outgoing>, r: Outgoing)
    ensures RecipientsBytes(rs + [r]) == RecipientsBytes(rs) + RecipientBytes(r)
  {
    hide RecipientBytes;
    if rs == [] {
      assert [] + [r] == [r] && [r][1..] == [];
    } else {
      RecipientsNext(rs[1..], r);
      assert (rs + [r])[1..] == rs[1..] + [r];
    }
  }

  // ----- A written recipient is read back -----

  /** The written unprotected bucket of a recipient, walked as a header and for its algorithm. */
  lemma AlgKidAccepted(alg: i64, kid: Bytes, c: seq<byte>, j: nat)
    requires InInt32(alg) && SameSlice(AlgKidMap(alg, kid), 0, c, j, |AlgKidMap(alg, kid)|)
    ensures var r := UnprotectedHdr(c, j, {}, false);
      && r.Ok? && r.next == j + |AlgKidMap(alg, kid)|
      && AlgField(c, r.value, false) == Some(alg)
      && BstrField(c, r.value, KID, false) == (if kid == [] then None else Some(kid))
    ensures SkippedMap(c, j, AlgSeen(ALG_UNSET, false)) == Ok(AlgSeen(alg, true), j + |AlgKidMap(alg, kid)|)
  {
    if kid == [] {
      AlgOnlyAccepted(alg, c, j);
    } else {
      AlgAndKidAccepted(alg, kid, c, j);
    }
  }

  lemma AlgOnlyAccepted(alg: i64, c: seq<byte>, j: nat)
    requires InInt32(alg) && SameSlice(AlgKidMap(alg, []), 0, c, j, |AlgKidMap(alg, [])|)
    ensures var r := UnprotectedHdr(c, j, {}, false);
      && r.Ok? && r.next == j + |AlgKidMap(alg, [])|
      && AlgField(c, r.value, false) == Some(alg) && BstrField(c, r.value, KID, false) == None
    ensures SkippedMap(c, j, AlgSeen(ALG_UNSET, false)) == Ok(AlgSeen(alg, true), j + |AlgKidMap(alg, [])|)
  {
    hide DecodeHead, EncodeHead, EncodeInt, DecodeMap, Walk, SameSlice, SkippedEntries, AlgValue;
    var m, h, l, a := AlgKidMap(alg, []), EncodeHead(MAP, 1), EncodeInt(ALG), EncodeInt(alg);
    ThreeParts(h, l, a);
    AlgLabel();
    Within(h, m, 0, c, j);
    Within(l, m, 1, c, j);
    Within(a, m, 2, c, j);
    SameSliceBound(m, 0, c, j, |m|);
    DecodeMapIs(c, j, 1);
    IntRoundTrip(ALG, false, c, j + 1);
    AlgRead(alg, c, j + 2);
    var e := j + |m|;
    WalkOneOf(c, j + 1, Unprotected, {}, IntLabel(ALG), j + 2, e);
    OneEntry(Entry(IntLabel(ALG), j + 1, j + 2, e));
    EntryBack(c, j + 1, 1, AlgSeen(ALG_UNSET, false));
    EntriesNone(c, e, AlgSeen(alg, true));
  }

  lemma AlgLabel()
    ensures |EncodeInt(ALG)| == 1 && |EncodeInt(KID)| == 1
  {
  }

  lemma AlgAndKidAccepted(alg: i64, kid: Bytes, c: seq<byte>, j: nat)
    requires InInt32(alg) && kid != [] && SameSlice(AlgKidMap(alg, kid), 0, c, j, |AlgKidMap(alg, kid)|)
    ensures var r := UnprotectedHdr(c, j, {}, false);
      && r.Ok? && r.next == j + |AlgKidMap(alg, kid)|
      && AlgField(c, r.value, false) == Some(alg) && BstrField(c, r.value, KID, false) == Some(kid)
    ensures SkippedMap(c, j, AlgSeen(ALG_UNSET, false)) == Ok(AlgSeen(alg, true), j + |AlgKidMap(alg, kid)|)
  {
    hide DecodeHead, EncodeHead, EncodeInt, DecodeMap, Walk, SameSlice, SkippedEntries, AlgValue, EncodeString, DecodeBstr,
         AlgField, BstrField, SkipItems;
    var m, k, v := AlgKidMap(alg, kid), j + 2 + |EncodeInt(alg)|, EncodeBstr(kid);
    AlgKidParts(alg, kid, c, j);
    var e := k + 1 + |v|;
    DecodeMapIs(c, j, 2);
    IntRoundTrip(ALG, false, c, j + 1);
    AlgRead(alg, c, j + 2);
    IntRoundTrip(KID, false, c, k);
    BstrRead(kid, c, k + 1);
    WalkOneOf(c, k, Unprotected, {IntLabel(ALG)}, IntLabel(KID), k + 1, e);
    WalkCons(c, j + 1, 2, Unprotected, {}, false, IntLabel(ALG), j + 2, k);
    assert {} + {IntLabel(ALG)} == {IntLabel(ALG)};
    TwoEntries(c, alg, kid, Entry(IntLabel(ALG), j + 1, j + 2, k), Entry(IntLabel(KID), k, k + 1, e));
    EntryBack(c, j + 1, 2, AlgSeen(ALG_UNSET, false));
    SkipOfHead(c, k + 1, CBOR_MAX_DEPTH, false);
    EntryBack(c, k, 1, AlgSeen(alg, true));
    EntriesNone(c, e, AlgSeen(alg, true));
  }

  /** Where the parts of the bucket stand. */
  lemma AlgKidParts(alg: i64, kid: Bytes, c: seq<byte>, j: nat)
    requires kid != [] && SameSlice(AlgKidMap(alg, kid), 0, c, j, |AlgKidMap(alg, kid)|)
    ensures var k, v := j + 2 + |EncodeInt(alg)|, EncodeBstr(kid);
      && |AlgKidMap(alg, kid)| == 3 + |EncodeInt(alg)| + |v| && k + 1 + |v| <= |c| && |v| >= 1
      && |EncodeInt(ALG)| == 1 && |EncodeInt(KID)| == 1
      && SameSlice(EncodeHead(MAP, 2), 0, c, j, 1) && SameSlice(EncodeInt(ALG), 0, c, j + 1, 1)
      && SameSlice(EncodeInt(alg), 0, c, j + 2, |EncodeInt(alg)|)
      && SameSlice(EncodeInt(KID), 0, c, k, 1) && SameSlice(v, 0, c, k + 1, |v|)
  {
    hide EncodeHead, EncodeInt, EncodeString, SameSlice;
    AlgLabel();
    var h, l, a, i, v := EncodeHead(MAP, 2), EncodeInt(ALG), EncodeInt(alg), EncodeInt(KID), EncodeBstr(kid);
    var m, f := AlgKidMap(alg, kid), h + l + a + i;
    FourParts(h, l, a, i);
    ThreeParts(f, v, []);
    assert m == f + v + [];
    SameSliceBound(m, 0, c, j, |m|);
    Within(f, m, 0, c, j);
    Within(v, m, |f|, c, j);
    Within(h, f, 0, c, j);
    Within(l, f, 1, c, j);
    Within(a, f, 2, c, j);
    Within(i, f, 2 + |a|, c, j);
  }

  lemma TwoEntries(c: seq<byte>, alg: i64, kid: Bytes, x: Entry, y: Entry)
    requires x.lbl == IntLabel(ALG) && y.lbl == IntLabel(KID) && x.valueAt >= 0 && y.valueAt >= 0
    requires AlgValue(c, x.valueAt, false).Ok? && AlgValue(c, x.valueAt, false).value == Some(alg)
    requires DecodeBstr(c, y.valueAt, false).Ok? && DecodeBstr(c, y.valueAt, false).value == kid
    ensures AlgField(c, [x] + [y], false) == Some(alg) && BstrField(c, [x] + [y], KID, false) == Some(kid)
    ensures Labels([x] + [y]) == {IntLabel(ALG), IntLabel(KID)}
  {
    hide AlgValue, DecodeBstr;
    OneEntry(x);
    OneEntry(y);
    LabelsJoin([x], [y]);
    FindJoin([x], [y], IntLabel(ALG));
    FindJoin([x], [y], IntLabel(KID));
  }

  /** Where the parts of a written recipient stand. */
  lemma RecipientParts(r: Outgoing, c: seq<byte>, i: nat)
    requires SameSlice(RecipientBytes(r), 0, c, i, |RecipientBytes(r)|)
    ensures var m, v := AlgKidMap(r.alg, r.kid), EncodeBstr(r.value);
      && |RecipientBytes(r)| == 2 + |m| + |v| && i + |RecipientBytes(r)| <= |c| && |m| >= 1 && |v| >= 1
      && DecodeArray(c, i, false) == Ok(3, i + 1) && DecodeBstr(c, i + 1, false) == Ok([], i + 2)
      && SameSlice(m, 0, c, i + 2, |m|)
      && DecodeHead(c, i + 2 + |m|, false) == Ok(Item(BSTR, |r.value|, r.value), i + 2 + |m| + |v|)
      && DecodeBstr(c, i + 2 + |m|, false) == Ok(r.value, i + 2 + |m| + |v|)
  {
    hide DecodeHead, EncodeHead, EncodeString, SameSlice, DecodeString, DecodeContainer;
    var h, p, m, v := EncodeHead(ARRAY, 3), EncodeBstr([]), AlgKidMap(r.alg, r.kid), EncodeBstr(r.value);
    var b := RecipientBytes(r);
    hide AlgKidMap;
    FourParts(h, p, m, v);
    SameSliceBound(b, 0, c, i, |b|);
    MapNotEmpty(r.alg, r.kid);
    Within(h, b, 0, c, i);
    Within(p, b, 1, c, i);
    Within(m, b, 2, c, i);
    Within(v, b, 2 + |m|, c, i);
    DecodeArrayIs(c, i, 3);
    BstrRead([], c, i + 1);
    BstrRead(r.value, c, i + 2 + |m|);
  }

  lemma MapNotEmpty(alg: i64, kid: Bytes)
    ensures |AlgKidMap(alg, kid)| >= 1
  {
    hide EncodeHead, EncodeInt, EncodeBstr;
  }

  /** The byte string that ends a recipient is not null. */
  lemma NotNull(c: seq<byte>, k: nat)
    requires DecodeHead(c, k, false).Ok? && DecodeHead(c, k, false).value.major == BSTR
    ensures c[k] != NULL_BYTE
  {
  }

  /** A written recipient is skipped to its end, with its algorithm. */
  lemma OutgoingSkipped(r: Outgoing, c: seq<byte>, i: nat)
    requires InInt32(r.alg) && (r.alg == ALG_DIRECT ==> r.value == [])
    requires SameSlice(RecipientBytes(r), 0, c, i, |RecipientBytes(r)|)
    ensures SkippedRecipient(c, i) == Ok(r.alg, i + |RecipientBytes(r)|)
  {
    hide DecodeHead, SameSlice, DecodeString, DecodeContainer, AlgKidMap, EncodeString, RecipientBytes, SkippedMap,
         RecipientList, RecipientHead, RecipientFields, SkippedRecipient, UnprotectedHdr, AlgField, BstrField;
    RecipientParts(r, c, i);
    var k, e := i + 2 + |AlgKidMap(r.alg, r.kid)|, i + |RecipientBytes(r)|;
    AlgKidAccepted(r.alg, r.kid, c, i + 2);
    NotNull(c, k);
    FieldsAre(c, i + 1, r.alg, k, e, r.value);
    RecipientHeadIs(c, i, r.alg, e);
    OneRecipientSkipped(c, i, r.alg, e);
  }

  /** A recipient without nested ones is skipped by its head. */
  lemma OneRecipientSkipped(c: seq<byte>, i: nat, alg: i64, e: nat)
    requires RecipientHead(c, i) == Ok((3, alg), e)
    ensures SkippedRecipient(c, i) == Ok(alg, e)
  {
    hide RecipientHead, RecipientList;
    ListStep(c, i, 1, CBOR_MAX_DEPTH);
    ListNone(c, e, CBOR_MAX_DEPTH);
  }

  lemma FieldsAre(c: seq<byte>, j: nat, alg: i64, k: nat, e: nat, value: seq<byte>)
    requires DecodeBstr(c, j, false) == Ok([], j + 1) && k < |c| && c[k] != NULL_BYTE
    requires SkippedMap(c, j + 1, AlgSeen(ALG_UNSET, false)) == Ok(AlgSeen(alg, true), k)
    requires DecodeBstr(c, k, false) == Ok(value, e) && (alg == ALG_DIRECT ==> value == [])
    requires DecodeHead(c, k, false).Ok? && DecodeHead(c, k, false).value == Item(BSTR, |value|, value)
    requires DecodeHead(c, k, false).next == e
    ensures RecipientFields(c, j) == Ok(AlgSeen(alg, true), e)
  {
    hide DecodeHead, DecodeString, SkippedMap;
  }

  lemma RecipientHeadIs(c: seq<byte>, i: nat, alg: i64, e: nat)
    requires DecodeArray(c, i, false) == Ok(3, i + 1) && RecipientFields(c, i + 1) == Ok(AlgSeen(alg, true), e)
    ensures RecipientHead(c, i) == Ok((3, alg), e)
  {
    hide DecodeArray, RecipientFields;
  }

  // ----- A list of recipients -----

  lemma {:induction false} RecipientsSplit(rs: seq<Outgoing>, us: seq<Outgoing>)
    ensures RecipientsBytes(rs + us) == RecipientsBytes(rs) + RecipientsBytes(us)
  {
    hide RecipientBytes, RecipientsBytes;
    if rs == [] {
      RecipientsNone();
      assert rs + us == us;
    } else {
      RecipientsSplit(rs[1..], us);
      RecipientsCons(rs + us);
      RecipientsCons(rs);
      assert (rs + us)[0] == rs[0] && (rs + us)[1..] == rs[1..] + us;
    }
  }

  lemma RecipientsCons(rs: seq<Outgoing>)
    requires rs != []
    ensures RecipientsBytes(rs) == RecipientBytes(rs[0]) + RecipientsBytes(rs[1..])
  {
    hide RecipientBytes;
  }

  lemma RecipientsNone()
    ensures RecipientsBytes([]) == []
  {
  }

  /** What a list of recipients that goes together looks like: one mode, not key agreement. */
  predicate OneMode(rs: seq<Outgoing>, mode: int) {
    && mode != MODE_NONE && mode != MODE_DIRECT_AGREEMENT
    && forall i :: 0 <= i < |rs| ==>
         InInt32(rs[i].alg) && rs[i].alg != ALG_UNSET && Mode(rs[i].alg) == mode
         && (rs[i].alg == ALG_DIRECT ==> rs[i].value == [])
  }

  /** A list of recipients cut at one of them. */
  lemma ListCut(rs: seq<Outgoing>, index: nat, s: seq<byte>, l: nat, mode: int)
    requires index < |rs| && OneMode(rs, mode)
    requires SameSlice(RecipientsBytes(rs), 0, s, l, |RecipientsBytes(rs)|)
    ensures var p, q, u := RecipientsBytes(rs[..index]), RecipientBytes(rs[index]), RecipientsBytes(rs[index + 1..]);
      && |RecipientsBytes(rs)| == |p| + |q| + |u|
      && SameSlice(p, 0, s, l, |p|) && SameSlice(q, 0, s, l + |p|, |q|) && SameSlice(u, 0, s, l + |p| + |q|, |u|)
    ensures OneMode(rs[..index], mode) && OneMode([rs[index]], mode) && OneMode(rs[index + 1..], mode)
  {
    hide RecipientBytes, RecipientsBytes, SameSlice, Mode;
    var a, r, b := rs[..index], rs[index], rs[index + 1..];
    assert rs == a + ([r] + b);
    RecipientsSplit(a, [r] + b);
    RecipientsCons([r] + b);
    assert ([r] + b)[1..] == b;
    var p, q, u := RecipientsBytes(a), RecipientBytes(r), RecipientsBytes(b);
    var all := RecipientsBytes(rs);
    ThreeParts(p, q, u);
    assert all == p + q + u;
    Within(p, all, 0, s, l);
    Within(q, all, |p|, s, l);
    Within(u, all, |p| + |q|, s, l);
  }

  lemma OthersStep(s: seq<byte>, i: nat, n: nat, mode: int)
    requires n > 0 && SkippedRecipient(s, i).Ok?
    ensures SkipOthers(s, i, n, mode)
         == match NextMode(SkippedRecipient(s, i).value, mode)
            case None => Err(CoseBadAlg)
            case Some(m) => SkipOthers(s, SkippedRecipient(s, i).next, n - 1, m)
  {
    hide SkippedRecipient;
  }

  lemma OthersNone(s: seq<byte>, i: nat, mode: int)
    ensures SkipOthers(s, i, 0, mode) == Ok(mode, i)
  {
  }

  /** Written recipients of one mode are skipped, and share that mode. */
  lemma {:induction false} RecipientsSkipped(rs: seq<Outgoing>, c: seq<byte>, i: nat, before: int, mode: int)
    requires OneMode(rs, mode) && (before == MODE_NONE || before == mode)
    requires SameSlice(RecipientsBytes(rs), 0, c, i, |RecipientsBytes(rs)|)
    ensures SkipOthers(c, i, |rs|, before)
         == Ok(if rs == [] then before else mode, i + |RecipientsBytes(rs)|)
    decreases |rs|
  {
    hide RecipientBytes, RecipientsBytes, SkipOthers, SameSlice, SkippedRecipient, Mode;
    if rs == [] {
      RecipientsNone();
      OthersNone(c, i, before);
    } else {
      RecipientsCons(rs);
      var h, t := RecipientBytes(rs[0]), RecipientsBytes(rs[1..]);
      var all := RecipientsBytes(rs);
      ThreeParts(h, t, []);
      assert all == h + t + [];
      Within(h, all, 0, c, i);
      Within(t, all, |h|, c, i);
      OutgoingSkipped(rs[0], c, i);
      OthersStep(c, i, |rs|, before);
      RecipientsSkipped(rs[1..], c, i + |h|, mode, mode);
    }
  }

  // ----- The front of a message -----

  /** Tag, array head and protected bucket as they are written. */
  function FrontBytes(tag: u64, n: u64, alg: i64): (b: seq<byte>) {
    EncodeHead(TAG, tag) + EncodeHead(ARRAY, n) + EncodeBstr(AlgHeader(alg))
  }

  /** A written front is read back: its buckets, and the algorithm, which is protected. */
  lemma FrontAccepted(tag: u64, n: u64, alg: i64, s: seq<byte>, us: seq<Entry>, e: nat)
    requires InInt32(alg) && SameSlice(FrontBytes(tag, n, alg), 0, s, 0, |FrontBytes(tag, n, alg)|)
    requires HeadSize(tag) + HeadSize(n) + n <= |s|
    requires UnprotectedHdr(s, |FrontBytes(tag, n, alg)|, {IntLabel(ALG)}, false) == Ok(us, e)
    ensures var r := MessageFront(s, tag, n);
      && r.Ok? && r.next == e && r.value.prot == AlgHeader(alg) && r.value.us == us
      && AlgProtected(r.value) && (AlgField(s, us, false) == None ==> BodyAlg(s, r.value) == alg)
  {
    hide DecodeHead, EncodeHead, EncodeString, SameSlice, DecodeString, DecodeContainer, AlgHeader, ProtectedHdr,
         UnprotectedHdr, AlgField, HeadSize, Labels;
    var h, a, p := EncodeHead(TAG, tag), EncodeHead(ARRAY, n), EncodeBstr(AlgHeader(alg));
    var f := FrontBytes(tag, n, alg);
    ThreeParts(h, a, p);
    Within(h, f, 0, s, 0);
    Within(a, f, |h|, s, 0);
    Within(p, f, |h| + |a|, s, 0);
    TagRead(tag, s);
    DecodeArrayIs(s, |h|, n);
    BstrRead(AlgHeader(alg), s, |h| + |a|);
    AlgHeaderAccepted(alg);
  }

  lemma TagRead(tag: u64, s: seq<byte>)
    requires SameSlice(EncodeHead(TAG, tag), 0, s, 0, HeadSize(tag))
    ensures PeekType(s, 0) == TAG && DecodeTag(s, 0, false) == Ok(tag, HeadSize(tag))
  {
    HeadRoundTrip(TAG, tag, false, s, 0);
    hide HeadArgument, EncodeHead, HeadSize, SameSlice;
  }

  /** Content as it is written: a byte string, or null when it is detached. */
  function ContentBytes(embedded: Option<Bytes>): (b: seq<byte>) {
    match embedded { case None => [NULL_BYTE] case Some(p) => EncodeBstr(p) }
  }

  /** Written content is read back; detached content is the one the reader brings. */
  lemma ContentAccepted(embedded: Option<Bytes>, detached: Option<seq<byte>>, s: seq<byte>, i: nat)
    requires SameSlice(ContentBytes(embedded), 0, s, i, |ContentBytes(embedded)|)
    requires embedded.None? ==> detached.Some?
    ensures ContentField(s, i, detached)
         == Ok(if embedded.Some? then Content(embedded.value, embedded) else Content(detached.value, None),
               i + |ContentBytes(embedded)|)
  {
    if embedded.None? {
      NullRead(s, i);
    } else {
      hide DecodeHead, EncodeString, SameSlice;
      BstrRead(embedded.value, s, i);
      NotNull(s, i);
    }
  }

  lemma NullRead(s: seq<byte>, i: nat)
    requires SameSlice([NULL_BYTE], 0, s, i, 1)
    ensures s[i] == NULL_BYTE && DecodeHead(s, i, false) == Ok(Item(SIMPLE, 22, []), i + 1)
  {
    SameSliceAt([NULL_BYTE], 0, s, i, 1, 0);
  }
}
