/**
 When a message for several recipients is created, and its bytes, spelled out (sections 5.1 and 6.1 of
 RFC 9052).
 */
module CreateExact {
  import opened Wire
  import opened Cbor
  import opened CborRoundTrip
  import opened Countersign
  import opened CountersignAdd
  import opened CountersignWhen
  import opened Structures
  import opened Messages
  import opened Mac
  import opened MacContext
  import opened MacExact
  import opened Encrypt
  import opened EncryptExact

  // ----- Recipients -----

  /** A recipient: an array of an empty protected bucket, a map of the algorithm under label 1 and of the key
      identifier, if any, under label 4, and a byte string. */
  function RecipientItem(alg: i64, kid: Option<Bytes>, value: Bytes): (b: seq<byte>) {
    [0x83, 0x40]
    + (match kid
       case None => [0xA1, 0x01] + EncodeInt(alg)
       case Some(k) => [0xA2, 0x01] + EncodeInt(alg) + [0x04] + EncodeBstr(k))
    + EncodeBstr(value)
  }

  function RecipientItems(rs: seq<Recipient>, values: seq<Bytes>): (b: seq<byte>)
    requires |rs| == |values|
  {
    if rs == [] then [] else RecipientItem(rs[0].alg, rs[0].kid, values[0]) + RecipientItems(rs[1..], values[1..])
  }

  lemma RecipientHeads()
    ensures EncodeHead(ARRAY, 3) == [0x83] && EncodeBstr([]) == [0x40]
    ensures EncodeHead(MAP, 1) == [0xA1] && EncodeHead(MAP, 2) == [0xA2] && EncodeInt(1) == [0x01] && EncodeInt(4) == [0x04]
  {
  }

  lemma OneRecipient(alg: i64, kid: Option<Bytes>, value: Bytes)
    requires kid != Some([])
    ensures RecipientBytes(Outgoing(alg, match kid { case None => [] case Some(k) => k }, value))
         == RecipientItem(alg, kid, value)
  {
    hide EncodeHead, EncodeBstr, EncodeInt;
    RecipientHeads();
    if kid.Some? {
      WithKid(alg, kid.value, value);
    }
  }

  lemma WithKid(alg: i64, kid: Bytes, value: Bytes)
    requires kid != []
    ensures RecipientBytes(Outgoing(alg, kid, value)) == RecipientItem(alg, Some(kid), value)
  {
    hide EncodeHead, EncodeBstr, EncodeInt;
    RecipientHeads();
    var m := [0xA2, 0x01] + EncodeInt(alg) + [0x04] + EncodeBstr(kid);
    assert AlgKidMap(alg, kid) == m;
  }

  lemma {:induction false} AllRecipients(rs: seq<Recipient>, values: seq<Bytes>, os: seq<Outgoing>)
    requires |rs| == |values| == |os| && KidsOk(rs)
    requires forall i :: 0 <= i < |rs| ==> os[i] == Outgoing(rs[i].alg, RecipientKid(rs[i]), values[i])
    ensures RecipientsBytes(os) == RecipientItems(rs, values)
  {
    hide RecipientBytes, RecipientItem;
    if rs != [] {
      OneRecipient(rs[0].alg, rs[0].kid, values[0]);
      assert KidsOk(rs[1..]);
      AllRecipients(rs[1..], values[1..], os[1..]);
    }
  }

  // ----- MAC -----

  /** What is asked of a call: at least one recipient, every one direct, with a key identifier that is not empty if
      it has one, and with a key that names the MAC algorithm or none if it has one; the first has a symmetric key;
      exactly one of payload and detached payload; and no length beyond 32 bits. */
  predicate MacAllowed(c: Creation) {
    && c.rs != [] && c.rs[0].key.Some? && c.rs[0].key.value.symmetric
    && (forall i :: 0 <= i < |c.rs| ==>
          && c.rs[i].alg == -6 && c.rs[i].kid != Some([])
          && (c.rs[i].key.Some? ==> c.rs[i].key.value.alg == 0 || c.rs[i].key.value.alg == c.alg))
    && (c.payload.Some? != c.detached.Some?)
    && (c.payload.Some? ==> |c.payload.value| <= 0xFFFF_FFFF) && (c.detached.Some? ==> |c.detached.value| <= 0xFFFF_FFFF)
    && |c.extAad| <= 0xFFFF_FFFF && c.scratchSz <= 0xFFFF_FFFF && c.outSz <= 0xFFFF_FFFF
  }

  /** The message with a tag. */
  function MacWith(c: Creation, tag: Bytes): (s: seq<byte>)
    requires |c.rs| < U64_BOUND
  {
    MacFields(true, AlgOnly(c.alg), [0xA0], c.payload, tag,
              EncodeHead(ARRAY, |c.rs|) + RecipientItems(c.rs, seq(|c.rs|, _ => [])))
  }

  lemma MacMessageIs(c: Creation, tag: Bytes)
    requires |c.rs| < U64_BOUND && KidsOk(c.rs) && AllDirect(c.rs)
    ensures MacMessage(c.alg, c.payload, tag, Kids(c.rs)) == MacWith(c, tag)
  {
    hide EncodeBstr, EncodeHead, AlgHeader, AlgOnly, RecipientsBytes, RecipientItems;
    AlgOnlyIs(c.alg);
    MacHeads();
    SmallHeads();
    AllRecipients(c.rs, seq(|c.rs|, _ => []), DirectRecipients(Kids(c.rs)));
  }

  lemma MacAllowedIs(c: Creation)
    ensures ArgumentStatus(c).Success? <==> MacAllowed(c)
    ensures MacAllowed(c) ==> KidsOk(c.rs) && AllDirect(c.rs)
  {
  }

  /** A message is created if and only if the call is allowed, the algorithm has a tag size, what the tag covers fits
      scratch, the first key makes a tag of it, and the message fits the output; and it is that message. */
  lemma MacCreatesExactly(c: Creation, macs: Macs, s: seq<byte>)
    requires |c.rs| < U64_BOUND
    ensures Created(c, macs) == Ok(s, |s|)
       <==> && MacAllowed(c) && macs.tagSize(c.alg).Ok?
            && var covered := CoveredByTag(AlgOnly(c.alg), c.extAad, if c.payload.Some? then c.payload.value else c.detached.value);
               var made := macs.tagOf(c.alg, c.rs[0].key.value.bytes, covered);
               |covered| <= c.scratchSz && made.Signed? && s == MacWith(c, made.sig) && |s| <= c.outSz
  {
    hide MacMessage, MacTbs, AlgHeader, AlgOnly, CoveredByTag, MacWith, ArgumentStatus, KidsOk, AllDirect;
    MacAllowedIs(c);
    AlgOnlyIs(c.alg);
    if MacAllowed(c) {
      var payload := if c.payload.Some? then c.payload.value else c.detached.value;
      CoveredIs(AlgHeader(c.alg), c.extAad, payload);
      var made := macs.tagOf(c.alg, c.rs[0].key.value.bytes, ToMac(c));
      if made.Signed? {
        MacMessageIs(c, made.sig);
      }
    }
  }

  // ----- Encryption -----

  /** What is asked of a call: a recipient, a nonce of the size of the algorithm, key identifiers that are not empty, a
      payload that the algorithm takes, which is not detached, and no length beyond 32 bits. */
  predicate EncryptAllowed(c: Encryption, x: Ciphers) {
    && c.rs != [] && c.payload.Some? && c.detached.None?
    && (forall i :: 0 <= i < |c.rs| ==> c.rs[i].kid != Some([]))
    && x.keyLen(c.alg).Ok? && x.tagLen(c.alg).Ok? && x.payloadLen(c.alg, |c.payload.value|).Success?
    && c.iv != [] && x.nonceLen(c.alg).Ok? && |c.iv| == x.nonceLen(c.alg).value
    && |c.payload.value| <= 0xFFFF_FFFF && |c.extAad| <= 0xFFFF_FFFF && c.scratchSz <= 0xFFFF_FFFF && c.outSz <= 0xFFFF_FFFF
  }

  /** The content key. When the first recipient wraps, every one wraps, with a symmetric key of the size of its
      algorithm that names it or none, and the key is a fresh one; otherwise every one is direct, with keys that
      name the content algorithm or none, and the key is that of the first recipient, of the content's size. */
  predicate ContentKeyFor(c: Encryption, x: Ciphers, key: Bytes)
    requires c.rs != [] && x.keyLen(c.alg).Ok?
  {
    if IsWrap(c.rs[0].alg) then
      && (forall i :: 0 <= i < |c.rs| ==>
            && IsWrap(c.rs[i].alg) && c.rs[i].key.Some? && c.rs[i].key.value.symmetric
            && (c.rs[i].key.value.alg == 0 || c.rs[i].key.value.alg == c.rs[i].alg)
            && x.wrapKeyLen(c.rs[i].alg).Ok? && |c.rs[i].key.value.bytes| == x.wrapKeyLen(c.rs[i].alg).value)
      && c.random.Some? && c.random.value(x.keyLen(c.alg).value) == Yields(key)
    else
      && (forall i :: 0 <= i < |c.rs| ==>
            && c.rs[i].alg == -6
            && (c.rs[i].key.Some? ==> c.rs[i].key.value.alg == 0 || c.rs[i].key.value.alg == c.alg))
      && c.rs[0].key.Some? && c.rs[0].key.value.symmetric && key == c.rs[0].key.value.bytes && |key| == x.keyLen(c.alg).value
  }

  /** What stands in a recipient: the wrapped key, or nothing. */
  predicate ValueFor(r: Recipient, key: Bytes, x: Ciphers, value: Bytes) {
    if IsWrap(r.alg) then r.key.Some? && x.wrap(r.alg, r.key.value.bytes, key) == Yields(value) else value == []
  }

  predicate ValuesFor(rs: seq<Recipient>, key: Bytes, x: Ciphers, values: seq<Bytes>) {
    |values| == |rs| && forall i :: 0 <= i < |rs| ==> ValueFor(rs[i], key, x, values[i])
  }

  /** The message with a ciphertext and these values: the nonce under label 5 of the unprotected bucket. */
  function EncryptWith(c: Encryption, ct: Bytes, values: seq<Bytes>): (s: seq<byte>)
    requires |c.rs| == |values| < U64_BOUND
  {
    EncryptFields(true, AlgOnly(c.alg), [0xA1, 0x05] + EncodeBstr(c.iv), Some(ct),
                  EncodeHead(ARRAY, |c.rs|) + RecipientItems(c.rs, values))
  }

  lemma EncryptMessageIs(c: Encryption, ct: Bytes, os: seq<Outgoing>, values: seq<Bytes>)
    requires |c.rs| == |values| == |os| < U64_BOUND && KidsOk(c.rs)
    requires forall i :: 0 <= i < |c.rs| ==> os[i] == Outgoing(c.rs[i].alg, RecipientKid(c.rs[i]), values[i])
    ensures EncryptMessage(c.alg, c.iv, ct, os) == EncryptWith(c, ct, values)
  {
    hide EncodeBstr, EncodeHead, AlgHeader, AlgOnly, RecipientsBytes, RecipientItems, EncodeInt;
    AlgOnlyIs(c.alg);
    EncryptHeads();
    SmallHeads();
    NonceLabel();
    AllRecipients(c.rs, values, os);
    var a, b, d, e := EncodeBstr(AlgOnly(c.alg)), EncodeBstr(c.iv), EncodeBstr(ct), EncodeHead(ARRAY, |c.rs|);
    Regroup([0xD8, 0x60] + [0x84] + a, [0xA1] + [0x05] + b, d, e, RecipientItems(c.rs, values));
  }

  lemma Regroup(a: seq<byte>, b: seq<byte>, c: seq<byte>, d: seq<byte>, e: seq<byte>)
    ensures a + b + (c + d + e) == a + b + c + (d + e)
  {
  }

  lemma NonceLabel()
    ensures EncodeInt(5) == [0x05]
  {
  }

  lemma AllowedIs(c: Encryption, x: Ciphers)
    ensures Acceptable(c, x) && c.payload.Some? && c.detached.None? <==> EncryptAllowed(c, x)
    ensures EncryptAllowed(c, x) ==> KidsOk(c.rs)
  {
  }

  lemma WrapIs(alg: i64)
    ensures IsKeyWrapAlg(alg) <==> IsWrap(alg)
  {
  }

  lemma KeyForExactly(c: Encryption, x: Ciphers, key: Bytes)
    requires Acceptable(c, x)
    ensures FreshKey(c, x) == Some(key) <==> ContentKeyFor(c, x, key)
  {
    hide IsKeyWrapAlg, IsWrap, Acceptable;
    AcceptableHas(c, x);
    forall i | 0 <= i < |c.rs|
      ensures IsKeyWrapAlg(c.rs[i].alg) <==> IsWrap(c.rs[i].alg)
    {
      WrapIs(c.rs[i].alg);
    }
  }

  lemma AcceptableHas(c: Encryption, x: Ciphers)
    requires Acceptable(c, x)
    ensures c.rs != [] && x.keyLen(c.alg).Ok?
  {
  }

  /** Every recipient wraps as the first one does. */
  predicate Alike(c: Encryption)
    requires c.rs != []
  {
    forall i :: 0 <= i < |c.rs| ==>
      if IsWrap(c.rs[0].alg) then IsWrap(c.rs[i].alg) && c.rs[i].key.Some? else !IsWrap(c.rs[i].alg)
  }

  lemma KeyIsAlike(c: Encryption, x: Ciphers, key: Bytes)
    requires c.rs != [] && x.keyLen(c.alg).Ok? && ContentKeyFor(c, x, key)
    ensures Alike(c)
  {
  }

  lemma ValuesExactly(c: Encryption, x: Ciphers, key: Bytes)
    requires c.rs != [] && Alike(c)
    ensures AllWrapped(c.rs, Wraps(c), key, x) <==> exists values :: ValuesFor(c.rs, key, x, values)
    ensures forall values :: ValuesFor(c.rs, key, x, values) ==>
      && AllWrapped(c.rs, Wraps(c), key, x)
      && forall i :: 0 <= i < |c.rs| ==>
           OutgoingFor(c.rs, Wraps(c), key, x)[i] == Outgoing(c.rs[i].alg, RecipientKid(c.rs[i]), values[i])
  {
    hide IsKeyWrapAlg, IsWrap;
    WrapIs(c.rs[0].alg);
    forall i, v | 0 <= i < |c.rs|
      ensures ValueFor(c.rs[i], key, x, v) <==> WrappedFor(c.rs[i], Wraps(c), key, x) == Yields(v)
    {
    }
    if AllWrapped(c.rs, Wraps(c), key, x) {
      var values := seq(|c.rs|, i requires 0 <= i < |c.rs| => WrappedFor(c.rs[i], Wraps(c), key, x).bytes);
      assert ValuesFor(c.rs, key, x, values);
    }
  }

  /** The ciphertext and the values that a content key makes. */
  ghost predicate EncryptsTo(c: Encryption, x: Ciphers, key: Bytes, ct: Bytes, values: seq<Bytes>)
    requires EncryptAllowed(c, x)
  {
    && ContentKeyFor(c, x, key) && |Additional(AlgOnly(c.alg), c.extAad)| <= c.scratchSz
    && x.seal(c.alg, key, c.iv, Additional(AlgOnly(c.alg), c.extAad), c.payload.value) == Yields(ct)
    && |values| == |c.rs| && ValuesFor(c.rs, key, x, values)
  }

  /** A message is created if and only if the call is allowed, there is a content key, what is authenticated besides
      fits scratch, the payload is sealed, every recipient's key is wrapped, and the message fits the output;
      and it is that message. */
  lemma EncryptsExactly(c: Encryption, x: Ciphers, s: seq<byte>)
    requires |c.rs| < U64_BOUND
    ensures Encrypted(c, x) == Some(s)
       <==> && EncryptAllowed(c, x) && |s| <= c.outSz
            && exists key, ct, values :: EncryptsTo(c, x, key, ct, values) && s == EncryptWith(c, ct, values)
  {
    hide EncryptMessage, EncryptWith, EncStructure, AlgHeader, AlgOnly, Additional, Acceptable, ContentKeyFor, FreshKey,
         AllWrapped, OutgoingFor, ValuesFor, EncryptAllowed;
    AllowedIs(c, x);
    if Encrypted(c, x) == Some(s) {
      CreatedFrom(c, x, s);
    }
    if EncryptAllowed(c, x) && |s| <= c.outSz
       && exists key, ct, values :: EncryptsTo(c, x, key, ct, values) && s == EncryptWith(c, ct, values) {
      var key, ct, values :| EncryptsTo(c, x, key, ct, values) && s == EncryptWith(c, ct, values);
      CreatesFrom(c, x, key, ct, values);
    }
  }

  lemma AadIs(c: Encryption)
    ensures Aad(c) == Additional(AlgOnly(c.alg), c.extAad)
  {
    hide EncStructure, AlgHeader, AlgOnly, Additional;
    AlgOnlyIs(c.alg);
    AdditionalIs(AlgHeader(c.alg), c.extAad);
  }

  lemma CreatedFrom(c: Encryption, x: Ciphers, s: seq<byte>)
    requires |c.rs| < U64_BOUND && Encrypted(c, x) == Some(s)
    ensures EncryptAllowed(c, x) && |s| <= c.outSz
    ensures exists key, ct, values :: EncryptsTo(c, x, key, ct, values) && s == EncryptWith(c, ct, values)
  {
    hide EncryptMessage, EncryptWith, Aad, AlgOnly, Additional, Acceptable, ContentKeyFor, FreshKey, AllWrapped, ValuesFor,
         EncryptAllowed, Alike, KidsOk;
    AllowedIs(c, x);
    AadIs(c);
    AcceptableHas(c, x);
    var key := FreshKey(c, x).value;
    KeyForExactly(c, x, key);
    KeyIsAlike(c, x, key);
    ValuesExactly(c, x, key);
    var ct := x.seal(c.alg, key, c.iv, Aad(c), c.payload.value).bytes;
    var values :| ValuesFor(c.rs, key, x, values);
    Counted(c.rs, key, x, values);
    EncryptMessageIs(c, ct, OutgoingFor(c.rs, Wraps(c), key, x), values);
    assert EncryptsTo(c, x, key, ct, values);
  }

  lemma Counted(rs: seq<Recipient>, key: Bytes, x: Ciphers, values: seq<Bytes>)
    requires ValuesFor(rs, key, x, values)
    ensures |values| == |rs|
  {
  }

  lemma CreatesFrom(c: Encryption, x: Ciphers, key: Bytes, ct: Bytes, values: seq<Bytes>)
    requires |c.rs| < U64_BOUND && EncryptAllowed(c, x) && EncryptsTo(c, x, key, ct, values)
    ensures |values| == |c.rs|
    ensures |EncryptWith(c, ct, values)| <= c.outSz ==> Encrypted(c, x) == Some(EncryptWith(c, ct, values))
  {
    hide EncryptMessage, EncryptWith, Aad, AlgOnly, Additional, Acceptable, ContentKeyFor, FreshKey, AllWrapped, ValuesFor,
         EncryptAllowed, Alike, KidsOk;
    AllowedIs(c, x);
    AadIs(c);
    AcceptableHas(c, x);
    KeyForExactly(c, x, key);
    KeyIsAlike(c, x, key);
    ValuesExactly(c, x, key);
    Counted(c.rs, key, x, values);
    EncryptMessageIs(c, ct, OutgoingFor(c.rs, Wraps(c), key, x), values);
  }
}
