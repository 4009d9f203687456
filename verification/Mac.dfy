/**
 Multi-recipient COSE_Mac messages with a shared direct key (section 6.1 of RFC 9052), as
 functions of the bytes; the MAC algorithm is a parameter.
 */
module Mac {
  import opened Wire
  import opened Cbor
  import opened CborRoundTrip
  import opened Header
  import opened Recipients
  import opened RecipientContext
  import opened Countersign
  import opened CountersignLemmas
  import opened CountersignLists
  import opened CountersignAdd
  import opened Structures
  import opened Messages

  /** A symmetric or other key, with the algorithm it is restricted to, or none. */
  datatype Key = Key(symmetric: bool, alg: i64, bytes: seq<byte>)

  /** The MAC algorithms of wolfCrypt: the tag size of an algorithm, and the tag, or the
      refusal, for an algorithm, a key and the bytes to authenticate. */
  datatype Macs = Macs(tagSize: i64 -> Dec<nat>, tagOf: (i64, seq<byte>, seq<byte>) -> Signing)

  // ----- What is written -----

  /** The bytes that are authenticated. */
  function MacTbs(prot: Field, extAad: Field, payload: Field): (b: seq<byte>) {
    ToBeSignedMaced(CONTEXT_MAC, prot, None, extAad, payload)
  }

  function DirectRecipients(kids: seq<Bytes>): (rs: seq<Outgoing>)
    ensures |rs| == |kids| && forall i :: 0 <= i < |kids| ==> rs[i] == Outgoing(ALG_DIRECT, kids[i], [])
  {
    seq(|kids|, i requires 0 <= i < |kids| => Outgoing(ALG_DIRECT, kids[i], []))
  }

  /** What follows the front: the empty unprotected bucket, the payload, the tag, the
      recipients. */
  function MacBack(embedded: Option<Bytes>, tag: Bytes, kids: seq<Bytes>): (b: seq<byte>)
    requires |kids| < U64_BOUND
  {
    EncodeHead(MAP, 0) + ContentBytes(embedded) + EncodeBstr(tag) + EncodeHead(ARRAY, |kids|)
    + RecipientsBytes(DirectRecipients(kids))
  }

  function MacMessage(alg: i64, embedded: Option<Bytes>, tag: Bytes, kids: seq<Bytes>): (b: seq<byte>)
    requires |kids| < U64_BOUND
  {
    FrontBytes(TAG_MAC, 5, alg) + MacBack(embedded, tag, kids)
  }

  // ----- What is verified -----

  /** The selected recipient: its algorithm, the mode of the recipients so far, and its value,
      null or a byte string. */
  datatype Chosen = Chosen(alg: i64, mode: int, value: Option<seq<byte>>)

  function ChosenRecipient(s: seq<byte>, i: nat, mode: int): (r: Dec<Chosen>)
    ensures r.Ok? ==> i < r.next <= |s|
  {
    var (n, j) :- DecodeArray(s, i, false);
    if n != 3 then Err(CborMalformed)
    else
      var (b, k) :- Buckets(s, j);
      var alg := BodyAlg(s, b);
      match NextMode(alg, mode)
      case None => Err(CoseBadAlg)
      case Some(m) =>
        if alg == ALG_DIRECT && b.prot != [] then Err(CoseBadHdr)
        else
          var (it, e) :- DecodeHead(s, k, false);
          if alg == ALG_DIRECT && (it.major != BSTR || it.data != []) then Err(CoseBadHdr)
          else if s[k] == NULL_BYTE then Ok(Chosen(alg, m, None), e)
          else if it.major != BSTR then Err(CborType)
          else Ok(Chosen(alg, m, Some(it.data)), e)
  }

  /** The recipients, to the end of the message, with one selected. */
  function RecipientsOf(s: seq<byte>, k: nat, index: nat): (r: Dec<Chosen>)
    ensures r.Ok? ==> r.next == |s|
  {
    var (n, l) :- DecodeArray(s, k, false);
    if index >= n then Err(InvalidArg)
    else
      var (m, f) :- SkipOthers(s, l, index, MODE_NONE);
      var (ch, g) :- ChosenRecipient(s, f, m);
      var (_, e) :- SkipOthers(s, g, n - index - 1, ch.mode);
      if e != |s| then Err(CborMalformed) else Ok(ch, e)
  }

  /** A parsed COSE_Mac message, with one recipient selected. */
  datatype MacParts = MacParts(body: Body, alg: i64, content: Content, tag: seq<byte>, chosen: Chosen)

  function ParseMac(s: seq<byte>, index: nat, detached: Option<seq<byte>>): (r: Dec<MacParts>)
    ensures r.Ok? ==> r.next == |s|
  {
    var (b, i) :- MessageFront(s, TAG_MAC, 5);
    var (c, j) :- ContentField(s, i, detached);
    var (tag, k) :- DecodeBstr(s, j, false);
    var (ch, e) :- RecipientsOf(s, k, index);
    Ok(MacParts(b, BodyAlg(s, b), c, tag, ch), e)
  }

  /** What a verifier brings: its key, and the recipient algorithm it insists on, or none. */
  datatype Verifier = Verifier(key: Option<Key>, policy: i64)

  /** The checks after parsing. */
  function MacPolicy(p: MacParts, v: Verifier): (r: Status) {
    if v.key.None? || !v.key.value.symmetric then Fail(CoseKeyType)
    else if v.key.value.alg == ALG_UNSET && !AlgProtected(p.body) then Fail(CoseBadAlg)
    else if v.key.value.alg != ALG_UNSET && v.key.value.alg != p.alg then Fail(CoseBadAlg)
    else if p.chosen.alg != ALG_DIRECT then Fail(Unsupported)
    else if p.chosen.value.Some? && p.chosen.value.value != [] then Fail(CborMalformed)
    else if v.policy != ALG_UNSET && v.policy != p.chosen.alg then Fail(CoseBadAlg)
    else Success
  }

  /** `wc_CoseMac_Verify`: the payload in the message, or none when it is detached. */
  function MacVerify(s: seq<byte>, index: nat, detached: Option<seq<byte>>, extAad: Field, scratchSz: nat, v: Verifier,
                     macs: Macs): (r: Dec<Option<seq<byte>>>)
    requires |s| <= SIZE_MAX && (detached.Some? ==> |detached.value| <= SIZE_MAX)
  {
    if s == [] then Err(InvalidArg)
    else
      var (p, e) :- ParseMac(s, index, detached);
      if MacPolicy(p, v).Fail? then Err(MacPolicy(p, v).error)
      else
        var (n, _) :- macs.tagSize(p.alg);
        if |p.tag| != n then Err(MacFail)
        else
          MacSized(s, index, detached);
          var tbs := MacTbs(p.body.prot, extAad, p.content.bytes);
          if |tbs| > scratchSz then Err(BufferTooSmall)
          else
            match macs.tagOf(p.alg, v.key.value.bytes, tbs)
            case NotSigned(error) => Err(error)
            case Signed(tag) => if tag != p.tag then Err(MacFail) else Ok(p.content.embedded, e)
  }

  /** What was parsed fits in memory. */
  lemma MacSized(s: seq<byte>, index: nat, detached: Option<seq<byte>>)
    requires ParseMac(s, index, detached).Ok? && |s| <= SIZE_MAX && (detached.Some? ==> |detached.value| <= SIZE_MAX)
    ensures var p := ParseMac(s, index, detached).value;
      |p.body.prot| <= SIZE_MAX && |p.content.bytes| <= SIZE_MAX
  {
    hide DecodeString, DecodeContainer, ProtectedHdr, UnprotectedHdr, SkipOthers, ChosenRecipient, DecodeTag, PeekType,
         DecodeHead;
    var i := OptionalTag(s, TAG_MAC).next;
    BstrSized(s, DecodeArray(s, i, false).next);
    ContentSized(s, MessageFront(s, TAG_MAC, 5).next, detached);
  }

  lemma ContentSized(s: seq<byte>, i: nat, detached: Option<seq<byte>>)
    requires ContentField(s, i, detached).Ok? && |s| <= SIZE_MAX && (detached.Some? ==> |detached.value| <= SIZE_MAX)
    ensures |ContentField(s, i, detached).value.bytes| <= SIZE_MAX
  {
    hide HeadArgument;
  }

  // ----- Round trip -----

  /** A written recipient with an empty protected bucket: its buckets, and its algorithm. */
  lemma OutgoingBuckets(r: Outgoing, c: seq<byte>, i: nat)
    requires InInt32(r.alg) && SameSlice(RecipientBytes(r), 0, c, i, |RecipientBytes(r)|)
    ensures var b := Buckets(c, i + 1);
      && b.Ok? && b.value.prot == [] && BodyAlg(c, b.value) == r.alg
      && b.next == i + 2 + |AlgKidMap(r.alg, r.kid)|
  {
    hide DecodeHead, SameSlice, DecodeString, DecodeContainer, AlgKidMap, EncodeString, RecipientBytes, UnprotectedHdr,
         AlgField, SkippedMap;
    RecipientParts(r, c, i);
    AlgKidAccepted(r.alg, r.kid, c, i + 2);
    NoLabels();
  }

  /** A written recipient is selected, with its algorithm and its value. */
  lemma OutgoingChosen(r: Outgoing, c: seq<byte>, i: nat, mode: int)
    requires InInt32(r.alg) && SameSlice(RecipientBytes(r), 0, c, i, |RecipientBytes(r)|)
    requires NextMode(r.alg, mode).Some? && (r.alg == ALG_DIRECT ==> r.value == [])
    ensures ChosenRecipient(c, i, mode)
         == Ok(Chosen(r.alg, NextMode(r.alg, mode).value, Some(r.value)), i + |RecipientBytes(r)|)
  {
    hide DecodeHead, SameSlice, DecodeContainer, AlgKidMap, EncodeString, RecipientBytes, Buckets, BodyAlg, DecodeBstr,
         Mode;
    RecipientParts(r, c, i);
    OutgoingBuckets(r, c, i);
    NotNull(c, i + 2 + |AlgKidMap(r.alg, r.kid)|);
  }

  /** Where the parts behind the front stand. */
  lemma MacLayout(embedded: Option<Bytes>, tag: Bytes, kids: seq<Bytes>, s: seq<byte>, i: nat)
    requires 0 < |kids| < U64_BOUND && SameSlice(MacBack(embedded, tag, kids), 0, s, i, |MacBack(embedded, tag, kids)|)
    ensures var c, g, rs := ContentBytes(embedded), EncodeBstr(tag), RecipientsBytes(DirectRecipients(kids));
      var j := i + 1 + |c|; var k := j + |g|; var l := k + HeadSize(|kids|);
      && |MacBack(embedded, tag, kids)| == 1 + |c| + |g| + HeadSize(|kids|) + |rs|
      && SameSlice(EncodeHead(MAP, 0), 0, s, i, 1) && SameSlice(c, 0, s, i + 1, |c|) && SameSlice(g, 0, s, j, |g|)
      && SameSlice(EncodeHead(ARRAY, |kids|), 0, s, k, HeadSize(|kids|)) && SameSlice(rs, 0, s, l, |rs|)
      && l + |rs| <= |s|
  {
    hide EncodeHead, ContentBytes, EncodeString, RecipientsBytes, SameSlice, HeadSize;
    var m, c, g, h, rs := EncodeHead(MAP, 0), ContentBytes(embedded), EncodeBstr(tag), EncodeHead(ARRAY, |kids|),
                          RecipientsBytes(DirectRecipients(kids));
    var b, f := MacBack(embedded, tag, kids), m + c + g + h;
    ZeroHead();
    FourParts(m, c, g, h);
    ThreeParts(f, rs, []);
    assert b == f + rs + [];
    SameSliceBound(b, 0, s, i, |b|);
    Within(f, b, 0, s, i);
    Within(rs, b, |f|, s, i);
    Within(m, f, 0, s, i);
    Within(c, f, 1, s, i);
    Within(g, f, 1 + |c|, s, i);
    Within(h, f, 1 + |c| + |g|, s, i);
  }

  lemma ZeroHead()
    ensures HeadSize(0) == 1 && |EncodeHead(MAP, 0)| == 1
  {
  }

  /** The list of recipients, with one selected. */
  lemma ListChosen(kids: seq<Bytes>, index: nat, s: seq<byte>, l: nat)
    requires index < |kids|
    requires var rs := RecipientsBytes(DirectRecipients(kids)); SameSlice(rs, 0, s, l, |rs|)
    ensures var m := SkipOthers(s, l, index, MODE_NONE);
      && m.Ok?
      && var c := ChosenRecipient(s, m.next, m.value);
         && c.Ok? && c.value == Chosen(ALG_DIRECT, MODE_DIRECT_ENCRYPTION, Some([]))
         && SkipOthers(s, c.next, |kids| - index - 1, c.value.mode)
            == Ok(MODE_DIRECT_ENCRYPTION, l + |RecipientsBytes(DirectRecipients(kids))|)
  {
    hide RecipientBytes, RecipientsBytes, SkipOthers, SameSlice, ChosenRecipient, DirectRecipients, Mode, OneMode;
    var rs := DirectRecipients(kids);
    var p, q := RecipientsBytes(rs[..index]), RecipientBytes(rs[index]);
    DirectMode();
    AllOfOneMode(kids);
    ListCut(rs, index, s, l, MODE_DIRECT_ENCRYPTION);
    RecipientsSkipped(rs[..index], s, l, MODE_NONE, MODE_DIRECT_ENCRYPTION);
    var m := if index == 0 then MODE_NONE else MODE_DIRECT_ENCRYPTION;
    OutgoingChosen(rs[index], s, l + |p|, m);
    RecipientsSkipped(rs[index + 1..], s, l + |p| + |q|, MODE_DIRECT_ENCRYPTION, MODE_DIRECT_ENCRYPTION);
  }

  lemma AllOfOneMode(kids: seq<Bytes>)
    ensures OneMode(DirectRecipients(kids), MODE_DIRECT_ENCRYPTION)
  {
    hide Mode;
    DirectMode();
  }

  lemma DirectMode()
    ensures Mode(ALG_DIRECT) == MODE_DIRECT_ENCRYPTION && ALG_DIRECT != ALG_UNSET && InInt32(ALG_DIRECT)
    ensures MODE_DIRECT_ENCRYPTION != MODE_NONE && MODE_DIRECT_ENCRYPTION != MODE_DIRECT_AGREEMENT
  {
  }

  /** A written message parses at every recipient index, to what it was written from. */
  lemma MacParses(alg: i64, embedded: Option<Bytes>, tag: Bytes, kids: seq<Bytes>, index: nat,
                  detached: Option<seq<byte>>)
    requires InInt32(alg) && index < |kids| < U64_BOUND && (embedded.None? ==> detached.Some?)
    ensures var s := MacMessage(alg, embedded, tag, kids); var r := ParseMac(s, index, detached);
      && r.Ok? && r.value.body.prot == AlgHeader(alg) && AlgProtected(r.value.body) && r.value.alg == alg
      && r.value.content == (if embedded.Some? then Content(embedded.value, embedded) else Content(detached.value, None))
      && r.value.tag == tag && r.value.chosen == Chosen(ALG_DIRECT, MODE_DIRECT_ENCRYPTION, Some([]))
  {
    hide MessageFront, ContentField, DecodeBstr, DecodeArray, SkipOthers, ChosenRecipient, BodyAlg, AlgHeader,
         AlgProtected, MacMessage;
    var s := MacMessage(alg, embedded, tag, kids);
    MacFrontParses(alg, embedded, tag, kids);
    MacBackParses(embedded, tag, kids, index, detached, s, |FrontBytes(TAG_MAC, 5, alg)|);
  }

  /** The front of a written message. */
  lemma MacFrontParses(alg: i64, embedded: Option<Bytes>, tag: Bytes, kids: seq<Bytes>)
    requires InInt32(alg) && 0 < |kids| < U64_BOUND
    ensures var s := MacMessage(alg, embedded, tag, kids); var f := |FrontBytes(TAG_MAC, 5, alg)|;
      var r := MessageFront(s, TAG_MAC, 5);
      && r.Ok? && r.next == f + 1 && r.value.prot == AlgHeader(alg) && AlgProtected(r.value) && BodyAlg(s, r.value) == alg
      && SameSlice(MacBack(embedded, tag, kids), 0, s, f, |MacBack(embedded, tag, kids)|)
      && |s| == f + |MacBack(embedded, tag, kids)|
  {
    hide FrontBytes, MacBack, MessageFront, BodyAlg, AlgField, SameSlice, HeadSize, UnprotectedHdr, AlgHeader,
         AlgProtected, EncodeHead;
    var s := MacMessage(alg, embedded, tag, kids);
    var f, b := FrontBytes(TAG_MAC, 5, alg), MacBack(embedded, tag, kids);
    ThreeParts(f, b, []);
    assert s == f + b + [];
    MacLayout(embedded, tag, kids, s, |f|);
    EmptyMapAccepted(s, |f|);
    FrontSmall(TAG_MAC, 5, alg);
    FrontAccepted(TAG_MAC, 5, alg, s, [], |f| + 1);
  }

  /** What follows the front of a written message. */
  lemma MacBackParses(embedded: Option<Bytes>, tag: Bytes, kids: seq<Bytes>, index: nat, detached: Option<seq<byte>>,
                      s: seq<byte>, f: nat)
    requires index < |kids| < U64_BOUND && (embedded.None? ==> detached.Some?)
    requires SameSlice(MacBack(embedded, tag, kids), 0, s, f, |MacBack(embedded, tag, kids)|)
    requires |s| == f + |MacBack(embedded, tag, kids)|
    ensures var c := ContentField(s, f + 1, detached);
      && c.Ok?
      && c.value == (if embedded.Some? then Content(embedded.value, embedded) else Content(detached.value, None))
      && var g := DecodeBstr(s, c.next, false);
         && g.Ok? && g.value == tag
         && var n := DecodeArray(s, g.next, false);
            && n.Ok? && n.value == |kids|
            && var m := SkipOthers(s, n.next, index, MODE_NONE);
               && m.Ok?
               && var h := ChosenRecipient(s, m.next, m.value);
                  && h.Ok? && h.value == Chosen(ALG_DIRECT, MODE_DIRECT_ENCRYPTION, Some([]))
                  && SkipOthers(s, h.next, |kids| - index - 1, h.value.mode) == Ok(MODE_DIRECT_ENCRYPTION, |s|)
  {
    hide MacBack, ContentField, DecodeBstr, DecodeArray, SkipOthers, ChosenRecipient, SameSlice, HeadSize, EncodeHead,
         EncodeBstr, ContentBytes, RecipientsBytes;
    MacLayout(embedded, tag, kids, s, f);
    ContentAccepted(embedded, detached, s, f + 1);
    var j := f + 1 + |ContentBytes(embedded)|;
    BstrRead(tag, s, j);
    var k := j + |EncodeBstr(tag)|;
    RecipientsLength(DirectRecipients(kids));
    DecodeArrayIs(s, k, |kids|);
    ListChosen(kids, index, s, k + HeadSize(|kids|));
  }

  lemma FrontSmall(tag: u64, n: u64, alg: i64)
    requires n <= 23
    ensures |FrontBytes(tag, n, alg)| >= HeadSize(tag) + HeadSize(n) + 4
  {
    hide HeadBytes, EncodeInt;
  }

  lemma {:induction false} RecipientsLength(rs: seq<Outgoing>)
    ensures |RecipientsBytes(rs)| >= |rs|
  {
    if rs != [] {
      RecipientsCons(rs);
      RecipientsLength(rs[1..]);
    }
  }

  /** Whatever the number of recipients, their key identifiers, the payload and the external
      data: a message made with a key verifies with that key at every recipient index, and
      gives back the payload that is in it. */
  lemma MacRoundTrip(alg: i64, key: Key, embedded: Option<Bytes>, detached: Option<Bytes>, tag: Bytes,
                     kids: seq<Bytes>, index: nat, extAad: Field, scratchSz: nat, policy: i64, macs: Macs)
    requires InInt32(alg) && index < |kids| < U64_BOUND && (embedded.None? ==> detached.Some?)
    requires key.symmetric && (key.alg == ALG_UNSET || key.alg == alg) && (policy == ALG_UNSET || policy == ALG_DIRECT)
    requires |MacMessage(alg, embedded, tag, kids)| <= SIZE_MAX
    requires var payload := if embedded.Some? then embedded.value else detached.value;
      var tbs := MacTbs(AlgHeader(alg), extAad, payload);
      && |tbs| <= scratchSz && macs.tagOf(alg, key.bytes, tbs) == Signed(tag)
      && macs.tagSize(alg).Ok? && macs.tagSize(alg).value == |tag|
    ensures var s := MacMessage(alg, embedded, tag, kids);
      MacVerify(s, index, detached, extAad, scratchSz, Verifier(Some(key), policy), macs) == Ok(embedded, |s|)
  {
    hide ParseMac, MacMessage, AlgHeader, AlgProtected, MacTbs;
    MacParses(alg, embedded, tag, kids, index, detached);
    MessageNotEmpty(alg, embedded, tag, kids);
  }

  lemma MessageNotEmpty(alg: i64, embedded: Option<Bytes>, tag: Bytes, kids: seq<Bytes>)
    requires |kids| < U64_BOUND
    ensures MacMessage(alg, embedded, tag, kids) != []
  {
    hide MacBack;
    FrontSmall(TAG_MAC, 5, alg);
  }
}
