/**
 When a COSE_Mac message verifies, spelled out: where its fields stand, what the tag covers, and
 that no other tag is accepted (section 6.3 of RFC 9052).
 */
module MacExact {
  import opened Wire
  import opened Cbor
  import opened CborRoundTrip
  import opened Header
  import opened Recipients
  import opened RecipientContext
  import opened Countersign
  import opened CountersignAdd
  import opened Structures
  import opened Messages
  import opened MessageShape
  import opened Mac

  /** The MAC_structure: an array of the text "MAC", the protected bucket of the message, the
      external data and the payload. */
  function CoveredByTag(prot: Field, extAad: Field, payload: Field): (b: seq<byte>) {
    [0x84, 0x63, 0x4D, 0x41, 0x43] + EncodeBstr(prot) + EncodeBstr(extAad) + EncodeBstr(payload)
  }

  lemma CoveredIs(prot: Field, extAad: Field, payload: Field)
    ensures MacTbs(prot, extAad, payload) == CoveredByTag(prot, extAad, payload)
  {
    hide EncodeBstr;
    assert EncodeHead(ARRAY, 4) == [0x84] && EncodeHead(TSTR, 3) == [0x63];
    assert AsciiBytes("MAC") == [0x4D, 0x41, 0x43];
    assert EncodeTstr(CONTEXT_MAC) == [0x63, 0x4D, 0x41, 0x43];
  }

  /** A message: its fields in the order in which they stand. */
  function MacFields(tagged: bool, prot: Bytes, bucket: seq<byte>, embedded: Option<Bytes>, tag: Bytes, list: seq<byte>)
    : (s: seq<byte>)
  {
    (if tagged then [0xD8, 0x61] else []) + [0x85] + EncodeBstr(prot) + bucket + ContentItem(embedded) + EncodeBstr(tag) + list
  }

  lemma MacHeads()
    ensures EncodeHead(TAG, 97) == [0xD8, 0x61] && EncodeHead(ARRAY, 5) == [0x85]
  {
    assert ToBE(97, 1) == [97] by {
      assert ToBE(0, 0) == [];
    }
  }

  /** What a parsed message is made of, and where: in particular its tag is the byte string behind
      the content. */
  lemma MacShape(s: seq<byte>, index: nat, detached: Option<seq<byte>>)
    returns (tagged: bool, bucket: seq<byte>, list: seq<byte>)
    requires ParseMac(s, index, detached).Ok?
    ensures var p := ParseMac(s, index, detached).value;
      && |p.body.prot| <= SIZE_MAX && |p.tag| <= SIZE_MAX
      && (p.content.embedded.Some? ==> |p.content.embedded.value| <= SIZE_MAX)
      && s == MacFields(tagged, p.body.prot, bucket, p.content.embedded, p.tag, list)
      && (match p.content.embedded { case Some(b) => p.content.bytes == b case None => detached == Some(p.content.bytes) })
  {
    hide MessageFront, ContentField, DecodeBstr, RecipientsOf, BodyAlg, EncodeBstr, ProtectedHdr, UnprotectedHdr, Labels,
         EncodeHead, ContentItem;
    var f := MessageFront(s, TAG_MAC, 5);
    var c := ContentField(s, f.next, detached);
    var t := DecodeBstr(s, c.next, false);
    var m;
    tagged, m := FrontShape(s, TAG_MAC, 5);
    ContentShape(s, f.next, detached);
    BstrStands(s, c.next);
    bucket, list := s[m..f.next], s[t.next..];
    MacHeads();
    assert s == s[..m] + bucket + s[f.next..c.next] + s[c.next..t.next] + list;
  }

  // ----- The selected recipient -----

  /** A direct recipient: three fields, the first and the last empty, and the algorithm in the
      unprotected bucket. */
  predicate DirectAt(s: seq<byte>, i: nat) {
    && i + 2 <= |s| && s[i] == 0x83 && s[i + 1] == 0x40
    && var u := UnprotectedHdr(s, i + 2, {}, false);
       u.Ok? && AlgField(s, u.value, false) == Some(-6) && u.next < |s| && s[u.next] == 0x40
  }

  /** An empty byte string is the byte 0x40. */
  lemma EmptyString(s: seq<byte>, i: nat)
    ensures DecodeBstr(s, i, false).Ok? && DecodeBstr(s, i, false).value == [] <==> i < |s| && s[i] == 0x40
    ensures i < |s| && s[i] == 0x40 ==>
      DecodeHead(s, i, false) == Ok(Item(BSTR, 0, []), i + 1) && DecodeBstr(s, i, false) == Ok([], i + 1)
    ensures var h := DecodeHead(s, i, false);
      h.Ok? && h.value.major == BSTR && h.value.data == [] ==> i < |s| && s[i] == 0x40
  {
    if i < |s| && s[i] == 0x40 {
      assert s[i + 1..i + 1] == [];
    }
    if DecodeBstr(s, i, false).Ok? && DecodeBstr(s, i, false).value == [] {
      BstrStands(s, i);
      assert EncodeBstr([]) == [0x40];
      assert s[i] == s[i..DecodeBstr(s, i, false).next][0];
    }
  }

  /** The head of an array of three is the byte 0x83. */
  lemma ThreeHead(s: seq<byte>, i: nat)
    ensures DecodeArray(s, i, false).Ok? && DecodeArray(s, i, false).value == 3 <==> i + 4 <= |s| && s[i] == 0x83
    ensures i + 4 <= |s| && s[i] == 0x83 ==> DecodeArray(s, i, false) == Ok(3, i + 1)
  {
    if i + 4 <= |s| && s[i] == 0x83 {
      assert DecodeHead(s, i, false) == Ok(Item(ARRAY, 3, []), i + 1);
    }
    if DecodeArray(s, i, false).Ok? && DecodeArray(s, i, false).value == 3 {
      ContainerStands(s, i, ARRAY);
      assert EncodeHead(ARRAY, 3) == [0x83];
      assert s[i] == s[i..DecodeArray(s, i, false).next][0];
    }
  }

  /** The algorithm when nothing is protected. */
  lemma UnprotectedAlg(s: seq<byte>, us: seq<Entry>)
    ensures BodyAlg(s, Body([], [], us)) == match AlgField(s, us, false) { case Some(n) => n case None => 0 }
  {
    assert AlgField([], [], false) == None;
    hide AlgField;
  }

  lemma NothingProtected()
    ensures ProtectedHdr([], false) == Ok([], 0) && Labels([]) == {}
  {
  }

  lemma OneMore(mode: int)
    ensures NextMode(-6, mode) == if mode == 0 || mode == 1 then Some(1) else None
  {
  }

  lemma NoNull(s: seq<byte>, i: nat)
    requires i < |s| && s[i] == 0x40
    ensures s[i] != NULL_BYTE
  {
  }

  lemma DirectChosen(s: seq<byte>, i: nat, mode: int)
    ensures var r := ChosenRecipient(s, i, mode);
      && (r.Ok? && r.value.alg == -6 <==> DirectAt(s, i) && (mode == 0 || mode == 1))
      && (r.Ok? && r.value.alg == -6 ==>
            r == Ok(Chosen(-6, 1, Some([])), UnprotectedHdr(s, i + 2, {}, false).next + 1))
  {
    hide DecodeHead, DecodeBstr, DecodeArray, UnprotectedHdr, ProtectedHdr, AlgField, BodyAlg, NextMode, Labels;
    ThreeHead(s, i);
    NothingProtected();
    OneMore(mode);
    EmptyString(s, i + 1);
    var u := UnprotectedHdr(s, i + 2, {}, false);
    if u.Ok? {
      UnprotectedAlg(s, u.value);
      EmptyString(s, u.next);
    }
  }

  /** A list of recipients, to the end of the message, with a direct one at the index and all
      others of the same mode. */
  predicate DirectSelected(s: seq<byte>, k: nat, index: nat) {
    var n := DecodeArray(s, k, false);
    n.Ok? && index < n.value &&
    var m := SkipOthers(s, n.next, index, 0);
    m.Ok? && (m.value == 0 || m.value == 1) && DirectAt(s, m.next) &&
    SkipOthers(s, UnprotectedHdr(s, m.next + 2, {}, false).next + 1, n.value - index - 1, 1) == Ok(1, |s|)
  }

  lemma {:induction false} DirectOthers(s: seq<byte>, i: nat, n: nat)
    ensures SkipOthers(s, i, n, 1).Ok? ==> SkipOthers(s, i, n, 1).value == 1
    decreases n
  {
    hide SkippedRecipient, Mode;
    if n > 0 && SkippedRecipient(s, i).Ok? {
      DirectOthers(s, SkippedRecipient(s, i).next, n - 1);
    }
  }

  lemma SelectedDirect(s: seq<byte>, k: nat, index: nat)
    ensures var r := RecipientsOf(s, k, index);
      && (r.Ok? && r.value.alg == -6 <==> DirectSelected(s, k, index))
      && (r.Ok? && r.value.alg == -6 ==> r == Ok(Chosen(-6, 1, Some([])), |s|))
  {
    hide DecodeArray, SkipOthers, ChosenRecipient, DirectAt, UnprotectedHdr;
    var n := DecodeArray(s, k, false);
    if n.Ok? && index < n.value {
      var m := SkipOthers(s, n.next, index, MODE_NONE);
      if m.Ok? {
        DirectChosen(s, m.next, m.value);
        if ChosenRecipient(s, m.next, m.value).Ok? {
          DirectOthers(s, ChosenRecipient(s, m.next, m.value).next, n.value - index - 1);
        }
      }
    }
  }

  // ----- When a message verifies -----

  /** The message parses with a direct recipient at the index; the key is symmetric and names the
      algorithm, or names none and the algorithm is protected; the caller asks for no other
      recipient algorithm; and the tag is the one that the key makes of what it must cover. */
  predicate TagRight(s: seq<byte>, index: nat, detached: Option<seq<byte>>, extAad: Field, scratchSz: nat, v: Verifier,
                     macs: Macs)
  {
    var f := MessageFront(s, 97, 5);
    f.Ok? &&
    var c := ContentField(s, f.next, detached);
    c.Ok? &&
    var t := DecodeBstr(s, c.next, false);
    t.Ok? && DirectSelected(s, t.next, index) &&
    var alg, prot, payload := BodyAlg(s, f.value), f.value.prot, c.value.bytes;
    && v.key.Some? && v.key.value.symmetric
    && (if v.key.value.alg == 0 then IntLabel(1) in Labels(f.value.ps) else v.key.value.alg == alg)
    && (v.policy == 0 || v.policy == -6)
    && macs.tagSize(alg).Ok? && macs.tagSize(alg).value == |t.value|
    && |prot| <= SIZE_MAX && |payload| <= SIZE_MAX && |CoveredByTag(prot, extAad, payload)| <= scratchSz
    && macs.tagOf(alg, v.key.value.bytes, CoveredByTag(prot, extAad, payload)) == Signed(t.value)
  }

  /** Verification succeeds if and only if the tag in the message is right. */
  lemma VerifiesExactly(s: seq<byte>, index: nat, detached: Option<seq<byte>>, extAad: Field, scratchSz: nat, v: Verifier,
                        macs: Macs)
    requires |s| <= SIZE_MAX && (detached.Some? ==> |detached.value| <= SIZE_MAX)
    ensures MacVerify(s, index, detached, extAad, scratchSz, v, macs).Ok?
       <==> s != [] && TagRight(s, index, detached, extAad, scratchSz, v, macs)
    ensures MacVerify(s, index, detached, extAad, scratchSz, v, macs).Ok? ==>
      MacVerify(s, index, detached, extAad, scratchSz, v, macs)
      == Ok(ContentField(s, MessageFront(s, 97, 5).next, detached).value.embedded, |s|)
  {
    hide MessageFront, ContentField, DecodeBstr, RecipientsOf, BodyAlg, MacTbs, Labels, DirectSelected, CoveredByTag;
    var f := MessageFront(s, TAG_MAC, 5);
    if f.Ok? {
      var c := ContentField(s, f.next, detached);
      if c.Ok? {
        var t := DecodeBstr(s, c.next, false);
        if t.Ok? {
          SelectedDirect(s, t.next, index);
          if RecipientsOf(s, t.next, index).Ok? {
            MacSized(s, index, detached);
            CoveredIs(f.value.prot, extAad, c.value.bytes);
          }
        }
      }
    }
  }

  /** A message with any other tag than the one that the key makes is refused, at every recipient
      index. */
  lemma WrongTagRefused(alg: i64, key: Key, embedded: Option<Bytes>, detached: Option<Bytes>, tag: Bytes, wrong: Bytes,
                        kids: seq<Bytes>, index: nat, extAad: Field, scratchSz: nat, policy: i64, macs: Macs)
    requires InInt32(alg) && index < |kids| < U64_BOUND && (embedded.None? ==> detached.Some?)
    requires key.symmetric && (key.alg == 0 || key.alg == alg) && (policy == 0 || policy == -6)
    requires |MacMessage(alg, embedded, wrong, kids)| <= SIZE_MAX && wrong != tag
    requires var payload := if embedded.Some? then embedded.value else detached.value;
      var covered := CoveredByTag(AlgHeader(alg), extAad, payload);
      && |covered| <= scratchSz && macs.tagOf(alg, key.bytes, covered) == Signed(tag)
      && macs.tagSize(alg).Ok? && macs.tagSize(alg).value == |tag|
    ensures MacVerify(MacMessage(alg, embedded, wrong, kids), index, detached, extAad, scratchSz,
                      Verifier(Some(key), policy), macs) == Err(MacFail)
  {
    hide ParseMac, MacMessage, AlgHeader, AlgProtected, MacTbs, CoveredByTag;
    MacParses(alg, embedded, wrong, kids, index, detached);
    MessageNotEmpty(alg, embedded, wrong, kids);
    CoveredIs(AlgHeader(alg), extAad, if embedded.Some? then embedded.value else detached.value);
  }
}
