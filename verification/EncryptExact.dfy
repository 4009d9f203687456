/**
 When a COSE_Encrypt message decrypts, spelled out: the selected recipient, what its key and the
 caller's policy must agree with, the additional data, and the plaintext (section 5.3 of RFC 9052).
 */
module EncryptExact {
  import opened Wire
  import opened Cbor
  import opened CborRoundTrip
  import opened Header
  import opened RecipientContext
  import opened Countersign
  import opened CountersignAdd
  import opened Structures
  import opened Messages
  import opened MessageShape
  import opened Mac
  import opened MacExact
  import opened Encrypt

  /** The Enc_structure: an array of the text "Encrypt", the protected bucket of the message and the
      external data. */
  function Additional(prot: Field, extAad: Field): (b: seq<byte>) {
    [0x83, 0x67, 0x45, 0x6E, 0x63, 0x72, 0x79, 0x70, 0x74] + EncodeBstr(prot) + EncodeBstr(extAad)
  }

  lemma AdditionalIs(prot: Field, extAad: Field)
    ensures EncStructure(CONTEXT_ENCRYPT, prot, extAad) == Additional(prot, extAad)
  {
    hide EncodeBstr;
    assert EncodeHead(ARRAY, 3) == [0x83] && EncodeHead(TSTR, 7) == [0x67];
    assert AsciiBytes("Encrypt") == [0x45, 0x6E, 0x63, 0x72, 0x79, 0x70, 0x74];
    assert EncodeTstr(CONTEXT_ENCRYPT) == [0x67, 0x45, 0x6E, 0x63, 0x72, 0x79, 0x70, 0x74];
  }

  // ----- What a message is made of -----

  function EncryptFields(tagged: bool, prot: Bytes, bucket: seq<byte>, embedded: Option<Bytes>, list: seq<byte>)
    : (s: seq<byte>)
  {
    (if tagged then [0xD8, 0x60] else []) + [0x84] + EncodeBstr(prot) + bucket + ContentItem(embedded) + list
  }

  lemma EncryptHeads()
    ensures EncodeHead(TAG, 96) == [0xD8, 0x60] && EncodeHead(ARRAY, 4) == [0x84]
  {
    assert ToBE(96, 1) == [96] by {
      assert ToBE(0, 0) == [];
    }
  }

  /** What a parsed message is made of, and where. */
  lemma EncryptShape(s: seq<byte>, index: nat, detached: Option<seq<byte>>, v: Verifier, x: Ciphers)
    returns (tagged: bool, bucket: seq<byte>, list: seq<byte>)
    requires ParseEncrypt(s, index, detached, v, x).Ok?
    ensures var p := ParseEncrypt(s, index, detached, v, x).value;
      && |p.body.prot| <= SIZE_MAX && (p.content.embedded.Some? ==> |p.content.embedded.value| <= SIZE_MAX)
      && s == EncryptFields(tagged, p.body.prot, bucket, p.content.embedded, list)
      && (match p.content.embedded { case Some(b) => p.content.bytes == b case None => detached == Some(p.content.bytes) })
  {
    hide MessageFront, ContentField, SelectionOf, BodyAlg, NonceOf, EncodeBstr, ProtectedHdr, UnprotectedHdr, Labels,
         EncodeHead, ContentItem, AlgProtected;
    var f := MessageFront(s, TAG_ENCRYPT, 4);
    var c := ContentField(s, f.next, detached);
    var m;
    tagged, m := FrontShape(s, TAG_ENCRYPT, 4);
    ContentShape(s, f.next, detached);
    bucket, list := s[m..f.next], s[c.next..];
    EncryptHeads();
    assert s == s[..m] + bucket + s[f.next..c.next] + list;
  }

  // ----- The selected recipient -----

  /** The algorithm of a recipient with an empty protected bucket, and where its value stands. */
  function UnprotectedRecipient(s: seq<byte>, i: nat): (r: Dec<i64>) {
    if i + 4 <= |s| && s[i] == 0x83 && s[i + 1] == 0x40 then
      var (us, j) :- UnprotectedHdr(s, i + 2, {}, false);
      match AlgField(s, us, false) { case Some(a) => Ok(a, j) case None => Err(CoseBadAlg) }
    else Err(CborMalformed)
  }

  /** What the caller brings goes together with a recipient of this algorithm: a key that is
      restricted to an algorithm names that of the content for a direct recipient, and that of the
      recipient for key wrap; the caller insists on no other recipient algorithm; and an
      algorithm of the content that is not protected is named by a direct key. */
  predicate Agreed(a: i64, v: Verifier, contentAlg: i64, contentProtected: bool) {
    && (v.key.Some? && v.key.value.alg != 0 ==> v.key.value.alg == if a == -6 then contentAlg else a)
    && (v.policy == 0 || v.policy == a)
    && (contentProtected || (a == -6 && v.key.Some? && v.key.value.alg == contentAlg))
  }

  predicate IsWrap(a: i64) {
    a == -3 || a == -4 || a == -5
  }

  /** The recipient is direct with an empty value, or wraps a key in 24 bytes at least. */
  predicate SelectedAt(s: seq<byte>, i: nat, mode: int, v: Verifier, contentAlg: i64, contentProtected: bool) {
    var r := UnprotectedRecipient(s, i);
    r.Ok? && Agreed(r.value, v, contentAlg, contentProtected) &&
    if r.value == -6 then (mode == 0 || mode == 1) && r.next < |s| && s[r.next] == 0x40
    else
      && IsWrap(r.value) && (mode == 0 || mode == 3)
      && DecodeBstr(s, r.next, false).Ok? && |DecodeBstr(s, r.next, false).value| >= 24
  }

  /** What is selected. */
  function SelectedValue(s: seq<byte>, i: nat, mode: int, v: Verifier, contentAlg: i64, contentProtected: bool)
    : (r: Dec<Selected>)
    requires SelectedAt(s, i, mode, v, contentAlg, contentProtected)
  {
    var r := UnprotectedRecipient(s, i);
    if r.value == -6 then Ok(Selected(-6, 1, []), r.next + 1)
    else Ok(Selected(r.value, 3, DecodeBstr(s, r.next, false).value), DecodeBstr(s, r.next, false).next)
  }

  /** The two checks of a recipient's algorithm, when nothing of it is protected. */
  lemma LateExactly(a: i64, mode: int, v: Verifier, contentAlg: i64, contentProtected: bool)
    ensures LatePolicy(a, [], mode, v, contentAlg, contentProtected).Success?
       <==> Agreed(a, v, contentAlg, contentProtected)
            && ((a == -6 && (mode == 0 || mode == 1)) || (IsWrap(a) && (mode == 0 || mode == 3)))
    ensures EarlyPolicy(0, v, contentAlg).Success?
    ensures a == -6 && (mode == 0 || mode == 1) ==> NextMode(a, mode) == Some(1)
    ensures IsWrap(a) && (mode == 0 || mode == 3) ==> NextMode(a, mode) == Some(3)
  {
  }

  /** Nothing of an accepted recipient is protected. */
  lemma NothingLate(a: i64, prot: seq<byte>, mode: int, v: Verifier, contentAlg: i64, contentProtected: bool)
    ensures prot != [] ==> LatePolicy(a, prot, mode, v, contentAlg, contentProtected).Fail?
  {
    hide NextMode, KeyAlgStatus;
  }

  lemma ValueExactly(s: seq<byte>, i: nat, a: i64)
    requires a == -6 || IsWrap(a)
    ensures var r := RecipientValue(s, i, a);
      && (a == -6 ==> (r.Ok? <==> i < |s| && s[i] == 0x40) && (r.Ok? ==> r == Ok([], i + 1)))
      && (a != -6 ==> (r.Ok? <==> DecodeBstr(s, i, false).Ok? && |DecodeBstr(s, i, false).value| >= 24)
                      && (r.Ok? ==> r == DecodeBstr(s, i, false)))
  {
    hide DecodeHead, DecodeBstr;
    EmptyString(s, i);
  }

  lemma SelectedExactly(s: seq<byte>, i: nat, mode: int, v: Verifier, contentAlg: i64, contentProtected: bool)
    ensures var r := SelectedRecipient(s, i, mode, v, contentAlg, contentProtected);
      && (r.Ok? <==> SelectedAt(s, i, mode, v, contentAlg, contentProtected))
      && (r.Ok? ==> r == SelectedValue(s, i, mode, v, contentAlg, contentProtected))
  {
    hide DecodeHead, DecodeBstr, DecodeArray, UnprotectedHdr, ProtectedHdr, AlgField, BodyAlg, NextMode, Labels,
         LatePolicy, EarlyPolicy, RecipientValue, Agreed;
    ThreeHead(s, i);
    NothingProtected();
    NoAlg();
    EmptyString(s, i + 1);
    var u := UnprotectedHdr(s, i + 2, {}, false);
    if u.Ok? {
      var a := BodyAlg(s, Body([], [], u.value));
      UnprotectedAlg(s, u.value);
      LateExactly(a, mode, v, contentAlg, contentProtected);
      if a == -6 || IsWrap(a) {
        ValueExactly(s, u.next, a);
      }
    }
    Protected(s, i, mode, v, contentAlg, contentProtected);
  }

  lemma Protected(s: seq<byte>, i: nat, mode: int, v: Verifier, contentAlg: i64, contentProtected: bool)
    ensures SelectedRecipient(s, i, mode, v, contentAlg, contentProtected).Ok? ==>
      && DecodeArray(s, i, false).Ok? && DecodeArray(s, i, false).value == 3
      && var p := DecodeBstr(s, DecodeArray(s, i, false).next, false); p.Ok? && p.value == []
  {
    hide DecodeHead, DecodeBstr, DecodeArray, UnprotectedHdr, ProtectedHdr, AlgField, BodyAlg, NextMode, Labels,
         LatePolicy, EarlyPolicy, RecipientValue;
    if SelectedRecipient(s, i, mode, v, contentAlg, contentProtected).Ok? {
      var b := BucketsWithPolicy(s, DecodeArray(s, i, false).next, v, contentAlg).value;
      NothingLate(BodyAlg(s, b), b.prot, mode, v, contentAlg, contentProtected);
    }
  }

  /** The list of recipients, to the end of the message, with the one at the index selected and all
      of one mode. */
  predicate ListSelectedAt(s: seq<byte>, k: nat, index: nat, v: Verifier, contentAlg: i64, contentProtected: bool) {
    var n := DecodeArray(s, k, false);
    n.Ok? && index < n.value &&
    var m := SkipOthers(s, n.next, index, 0);
    m.Ok? && SelectedAt(s, m.next, m.value, v, contentAlg, contentProtected) &&
    var c := SelectedValue(s, m.next, m.value, v, contentAlg, contentProtected);
    c.Ok? &&
    var rest := SkipOthers(s, c.next, n.value - index - 1, c.value.mode);
    rest.Ok? && rest.next == |s|
  }

  function SelectedOf(s: seq<byte>, k: nat, index: nat, v: Verifier, contentAlg: i64, contentProtected: bool): (c: Selected)
    requires ListSelectedAt(s, k, index, v, contentAlg, contentProtected)
  {
    var m := SkipOthers(s, DecodeArray(s, k, false).next, index, 0);
    SelectedValue(s, m.next, m.value, v, contentAlg, contentProtected).value
  }

  lemma ListExactly(s: seq<byte>, k: nat, index: nat, v: Verifier, contentAlg: i64, contentProtected: bool)
    ensures var r := SelectionOf(s, k, index, v, contentAlg, contentProtected);
      && (r.Ok? <==> ListSelectedAt(s, k, index, v, contentAlg, contentProtected))
      && (r.Ok? ==> r == Ok(SelectedOf(s, k, index, v, contentAlg, contentProtected), |s|))
  {
    hide DecodeArray, SkipOthers, SelectedRecipient, SelectedAt, SelectedValue;
    var n := DecodeArray(s, k, false);
    if n.Ok? && index < n.value {
      var m := SkipOthers(s, n.next, index, MODE_NONE);
      if m.Ok? {
        SelectedExactly(s, m.next, m.value, v, contentAlg, contentProtected);
      }
    }
  }

  // ----- When a message decrypts -----

  /** The content key: the shared one, or what the selected recipient's value unwraps to; of the
      size that the content algorithm asks for. */
  predicate IsContentKey(key: Bytes, c: Selected, v: Verifier, size: nat, x: Ciphers) {
    && v.key.Some? && v.key.value.symmetric && |key| == size
    && (if c.alg == -6 then key == v.key.value.bytes else x.unwrap(c.alg, v.key.value.bytes, c.value) == Yields(key))
  }

  /** The nonce and the ciphertext have their sizes, and under the content key the ciphertext opens to
      `plaintext`. */
  ghost predicate ContentOpens(alg: i64, prot: seq<byte>, nonce: seq<byte>, ct: seq<byte>, chosen: Selected, extAad: Field,
                               scratchSz: nat, plaintextSz: nat, v: Verifier, x: Ciphers, plaintext: Bytes)
  {
    && x.nonceLen(alg).Ok? && x.nonceLen(alg).value == |nonce|
    && x.keyLen(alg).Ok? && x.tagLen(alg).Ok? && x.tagLen(alg).value <= |ct|
    && x.payloadLen(alg, |ct| - x.tagLen(alg).value).Success? && |ct| - x.tagLen(alg).value <= plaintextSz
    && |prot| <= SIZE_MAX && |Additional(prot, extAad)| <= scratchSz
    && exists key: Bytes ::
         && IsContentKey(key, chosen, v, x.keyLen(alg).value, x)
         && x.open(alg, key, nonce, Additional(prot, extAad), ct) == Yields(plaintext)
  }

  /** The message parses with a recipient at the index that goes together with what the caller
      brings, and its content opens to `plaintext`. */
  ghost predicate OpensTo(s: seq<byte>, index: nat, detached: Option<seq<byte>>, extAad: Field, scratchSz: nat,
                          plaintextSz: nat, v: Verifier, x: Ciphers, plaintext: Bytes)
  {
    var f := MessageFront(s, 96, 4);
    f.Ok? &&
    var c := ContentField(s, f.next, detached);
    c.Ok? &&
    var alg, isProtected := BodyAlg(s, f.value), IntLabel(1) in Labels(f.value.ps);
    ListSelectedAt(s, c.next, index, v, alg, isProtected) &&
    var nonce := match BodyIv(s, f.value) { case Some(iv) => iv case None => [] };
    var chosen := SelectedOf(s, c.next, index, v, alg, isProtected);
    ContentOpens(alg, f.value.prot, nonce, c.value.bytes, chosen, extAad, scratchSz, plaintextSz, v, x, plaintext)
  }

  lemma KeyExactly(c: Selected, v: Verifier, size: nat, x: Ciphers, key: Bytes)
    requires c.alg == -6 || IsWrap(c.alg)
    ensures IsContentKey(key, c, v, size, x) <==> OpeningKey(c, v, size, x) == Yields(key)
  {
  }

  /** The front, the content and the recipients, as the parser takes them. */
  lemma ParsesExactly(s: seq<byte>, index: nat, detached: Option<seq<byte>>, v: Verifier, x: Ciphers)
    ensures ParseEncrypt(s, index, detached, v, x).Ok? <==>
      var f := MessageFront(s, 96, 4);
      f.Ok? &&
      var c := ContentField(s, f.next, detached);
      var alg := BodyAlg(s, f.value);
      && c.Ok? && ListSelectedAt(s, c.next, index, v, alg, IntLabel(1) in Labels(f.value.ps))
      && x.nonceLen(alg).Ok? && x.nonceLen(alg).value == |NonceOf(s, f.value)|
    ensures ParseEncrypt(s, index, detached, v, x).Ok? ==>
      var p, f := ParseEncrypt(s, index, detached, v, x), MessageFront(s, 96, 4);
      var c, alg := ContentField(s, f.next, detached), BodyAlg(s, f.value);
      p == Ok(EncryptParts(f.value, alg, NonceOf(s, f.value), c.value,
                           SelectedOf(s, c.next, index, v, alg, IntLabel(1) in Labels(f.value.ps))), |s|)
  {
    hide MessageFront, ContentField, SelectionOf, BodyAlg, NonceOf, Labels, ListSelectedAt, SelectedOf;
    var f := MessageFront(s, TAG_ENCRYPT, 4);
    if f.Ok? {
      var c := ContentField(s, f.next, detached);
      if c.Ok? {
        ListExactly(s, c.next, index, v, BodyAlg(s, f.value), AlgProtected(f.value));
      }
    }
  }

  lemma SelectedIs(s: seq<byte>, k: nat, index: nat, v: Verifier, contentAlg: i64, contentProtected: bool)
    requires ListSelectedAt(s, k, index, v, contentAlg, contentProtected)
    ensures var c := SelectedOf(s, k, index, v, contentAlg, contentProtected); c.alg == -6 || IsWrap(c.alg)
  {
    hide DecodeArray, SkipOthers, UnprotectedRecipient, DecodeBstr, Agreed, IsWrap;
  }

  /** What decryption makes of a parsed message. */
  lemma ContentExactly(s: seq<byte>, index: nat, detached: Option<seq<byte>>, extAad: Field, scratchSz: nat,
                       plaintextSz: nat, v: Verifier, x: Ciphers, plaintext: Bytes)
    requires s != [] && |s| <= SIZE_MAX && (detached.Some? ==> |detached.value| <= SIZE_MAX)
    requires ParseEncrypt(s, index, detached, v, x).Ok?
    requires var p := ParseEncrypt(s, index, detached, v, x).value;
      && (p.chosen.alg == -6 || IsWrap(p.chosen.alg))
      && x.nonceLen(p.alg).Ok? && x.nonceLen(p.alg).value == |p.iv|
    ensures var p := ParseEncrypt(s, index, detached, v, x).value;
      Decrypt(s, index, detached, extAad, scratchSz, plaintextSz, v, x) == Ok(plaintext, |s|)
      <==> ContentOpens(p.alg, p.body.prot, p.iv, p.content.bytes, p.chosen, extAad, scratchSz, plaintextSz, v, x, plaintext)
  {
    hide ParseEncrypt, OpeningKey, EncStructure, Additional, IsContentKey, IsWrap;
    var p := ParseEncrypt(s, index, detached, v, x).value;
    EncryptSized(s, index, detached, v, x);
    AdditionalIs(p.body.prot, extAad);
    if x.keyLen(p.alg).Ok? {
      forall key: Bytes
        ensures IsContentKey(key, p.chosen, v, x.keyLen(p.alg).value, x)
           <==> OpeningKey(p.chosen, v, x.keyLen(p.alg).value, x) == Yields(key)
      {
        KeyExactly(p.chosen, v, x.keyLen(p.alg).value, x, key);
      }
      var k := OpeningKey(p.chosen, v, x.keyLen(p.alg).value, x);
      assert k.Yields? ==> IsContentKey(k.bytes, p.chosen, v, x.keyLen(p.alg).value, x);
    }
  }

  /** Decryption gives a plaintext if and only if the message opens to it; in particular it is refused
      when the algorithm of the content is neither protected nor named by a direct key, when the
      key names another algorithm, and when the caller asks for another recipient algorithm. */
  lemma DecryptsExactly(s: seq<byte>, index: nat, detached: Option<seq<byte>>, extAad: Field, scratchSz: nat,
                        plaintextSz: nat, v: Verifier, x: Ciphers, plaintext: Bytes)
    requires |s| <= SIZE_MAX && (detached.Some? ==> |detached.value| <= SIZE_MAX)
    ensures Decrypt(s, index, detached, extAad, scratchSz, plaintextSz, v, x) == Ok(plaintext, |s|)
       <==> s != [] && OpensTo(s, index, detached, extAad, scratchSz, plaintextSz, v, x, plaintext)
    ensures Decrypt(s, index, detached, extAad, scratchSz, plaintextSz, v, x).Ok? ==>
      Decrypt(s, index, detached, extAad, scratchSz, plaintextSz, v, x).next == |s|
  {
    hide MessageFront, ContentField, ParseEncrypt, BodyAlg, NonceOf, Labels, ListSelectedAt, SelectedOf, OpeningKey,
         EncStructure, BodyIv, IsWrap, Decrypt, Additional, IsContentKey;
    ParsesExactly(s, index, detached, v, x);
    DecryptParses(s, index, detached, extAad, scratchSz, plaintextSz, v, x);
    if s != [] && ParseEncrypt(s, index, detached, v, x).Ok? {
      var p := ParseEncrypt(s, index, detached, v, x).value;
      NonceIs(s, p.body);
      SelectedIs(s, ContentField(s, MessageFront(s, 96, 4).next, detached).next, index, v, p.alg,
                 IntLabel(1) in Labels(p.body.ps));
      ContentExactly(s, index, detached, extAad, scratchSz, plaintextSz, v, x, plaintext);
    } else if MessageFront(s, 96, 4).Ok? {
      NonceIs(s, MessageFront(s, 96, 4).value);
    }
  }

  lemma DecryptParses(s: seq<byte>, index: nat, detached: Option<seq<byte>>, extAad: Field, scratchSz: nat,
                      plaintextSz: nat, v: Verifier, x: Ciphers)
    requires |s| <= SIZE_MAX && (detached.Some? ==> |detached.value| <= SIZE_MAX)
    ensures Decrypt(s, index, detached, extAad, scratchSz, plaintextSz, v, x).Ok? ==>
      && s != [] && ParseEncrypt(s, index, detached, v, x).Ok?
      && Decrypt(s, index, detached, extAad, scratchSz, plaintextSz, v, x).next
         == ParseEncrypt(s, index, detached, v, x).next == |s|
  {
    hide ParseEncrypt, OpeningKey, EncStructure;
  }

  lemma NonceIs(s: seq<byte>, b: Body)
    ensures NonceOf(s, b) == match BodyIv(s, b) { case Some(iv) => iv case None => [] }
  {
    hide BodyIv;
  }
}
