/**
 Multi-recipient COSE_Encrypt messages (section 5.1 of RFC 9052) with a shared direct key
 or with AES key wrap, as functions of the bytes; the ciphers are parameters.
 */
module Encrypt {
  import opened Wire
  import opened Cbor
  import opened CborRoundTrip
  import opened Header
  import opened Recipients
  import opened RecipientContext
  import opened Countersign
  import opened CountersignLemmas
  import opened CountersignLists
  import opened CountersignAdd
  import opened Structures
  import opened Messages
  import opened Mac
  import opened MacContext

  const ALG_A128KW: i64 := -3
  const ALG_A192KW: i64 := -4
  const ALG_A256KW: i64 := -5

  predicate IsKeyWrapAlg(alg: i64) {
    alg == ALG_A128KW || alg == ALG_A192KW || alg == ALG_A256KW
  }

  /** What a cipher yields, or its refusal. */
  datatype Crypt = Yields(bytes: Bytes) | Fails(error: Error)

  /** The ciphers of wolfCrypt: the sizes of a content algorithm, sealing and opening with an
      algorithm, a key, a nonce and additional data, and wrapping and unwrapping a key. */
  datatype Ciphers = Ciphers(
    keyLen: i64 -> Dec<nat>,
    tagLen: i64 -> Dec<nat>,
    nonceLen: i64 -> Dec<nat>,
    payloadLen: (i64, nat) -> Status,
    seal: (i64, seq<byte>, seq<byte>, seq<byte>, seq<byte>) -> Crypt,
    open: (i64, seq<byte>, seq<byte>, seq<byte>, seq<byte>) -> Crypt,
    wrapKeyLen: i64 -> Dec<nat>,
    wrap: (i64, seq<byte>, seq<byte>) -> Crypt,
    unwrap: (i64, seq<byte>, seq<byte>) -> Crypt)

  /** What is asked of the ciphers: opening undoes sealing, a sealed text is longer by the
      tag, unwrapping undoes wrapping, and a wrapped key has 24 bytes at least. */
  ghost predicate Lawful(x: Ciphers) {
    && (forall alg, k, iv, aad, p: Bytes :: x.seal(alg, k, iv, aad, p).Yields? ==>
          && x.open(alg, k, iv, aad, x.seal(alg, k, iv, aad, p).bytes) == Yields(p)
          && (x.tagLen(alg).Ok? ==> |x.seal(alg, k, iv, aad, p).bytes| == |p| + x.tagLen(alg).value))
    && (forall alg, k, cek: Bytes :: x.wrap(alg, k, cek).Yields? ==>
          && x.unwrap(alg, k, x.wrap(alg, k, cek).bytes) == Yields(cek)
          && |x.wrap(alg, k, cek).bytes| >= 24)
  }

  // ----- What is written -----

  /** The unprotected bucket of a message: its nonce. */
  function IvMap(iv: Bytes): (b: seq<byte>) {
    EncodeHead(MAP, 1) + EncodeInt(IV) + EncodeBstr(iv)
  }

  function EncryptBack(ct: Bytes, rs: seq<Outgoing>): (b: seq<byte>)
    requires |rs| < U64_BOUND
  {
    EncodeBstr(ct) + EncodeHead(ARRAY, |rs|) + RecipientsBytes(rs)
  }

  function EncryptMessage(alg: i64, iv: Bytes, ct: Bytes, rs: seq<Outgoing>): (b: seq<byte>)
    requires |rs| < U64_BOUND
  {
    FrontBytes(TAG_ENCRYPT, 4, alg) + IvMap(iv) + EncryptBack(ct, rs)
  }

  // ----- What is read -----

  /** A key restricted to an algorithm agrees with the recipient's, or with the content's when
      the recipient uses the key directly. */
  function KeyAlgStatus(key: Option<Key>, recipientAlg: i64, contentAlg: i64): (r: Status) {
    if key.Some? && key.value.alg != ALG_UNSET
       && key.value.alg != (if recipientAlg == ALG_UNSET || recipientAlg == ALG_DIRECT then contentAlg else recipientAlg)
    then Fail(CoseBadAlg) else Success
  }

  /** The checks of a recipient's protected algorithm, before its unprotected bucket. */
  function EarlyPolicy(alg: i64, v: Verifier, contentAlg: i64): (r: Status) {
    if alg != ALG_UNSET && KeyAlgStatus(v.key, alg, contentAlg).Fail? then Fail(CoseBadAlg)
    else if !(alg == ALG_UNSET || alg == ALG_DIRECT || IsKeyWrapAlg(alg)) then Fail(CoseBadAlg)
    else if alg != ALG_UNSET && v.policy != ALG_UNSET && v.policy != alg then Fail(CoseBadAlg)
    else Success
  }

  /** The checks of a recipient's algorithm once both buckets are decoded. */
  function LatePolicy(alg: i64, prot: seq<byte>, mode: int, v: Verifier, contentAlg: i64, contentProtected: bool)
    : (r: Status)
  {
    if KeyAlgStatus(v.key, alg, contentAlg).Fail? then Fail(CoseBadAlg)
    else if NextMode(alg, mode).None? then Fail(CoseBadAlg)
    else if alg == ALG_DIRECT && prot != [] then Fail(CoseBadHdr)
    else if !(alg == ALG_DIRECT || IsKeyWrapAlg(alg)) then Fail(CoseBadAlg)
    else if IsKeyWrapAlg(alg) && prot != [] then Fail(CoseBadHdr)
    else if v.policy != ALG_UNSET && v.policy != alg then Fail(CoseBadAlg)
    else if !contentProtected && (alg != ALG_DIRECT || v.key.None? || v.key.value.alg != contentAlg) then Fail(CoseBadAlg)
    else Success
  }

  /** The value of the selected recipient: a wrapped key, or an empty byte string. */
  function RecipientValue(s: seq<byte>, i: nat, alg: i64): (r: Dec<seq<byte>>)
    ensures r.Ok? ==> i < r.next <= |s|
  {
    if IsKeyWrapAlg(alg) then
      var (w, j) :- DecodeBstr(s, i, false);
      if |w| < 24 then Err(CborMalformed) else Ok(w, j)
    else
      var (it, j) :- DecodeHead(s, i, false);
      if alg == ALG_DIRECT && (it.major != BSTR || it.data != []) then Err(CoseBadHdr)
      else if s[i] != NULL_BYTE && it.major != BSTR then Err(CborType)
      else if s[i] != NULL_BYTE && it.data != [] then Err(CborMalformed)
      else Ok([], j)
  }

  /** The selected recipient: its algorithm, the mode so far, its value. */
  datatype Selected = Selected(alg: i64, mode: int, value: seq<byte>)

  /** Both buckets of the selected recipient, with the check between them. */
  function BucketsWithPolicy(s: seq<byte>, i: nat, v: Verifier, contentAlg: i64): (r: Dec<Body>)
    ensures r.Ok? ==> i < r.next <= |s|
  {
    var (prot, k) :- DecodeBstr(s, i, false);
    var (ps, _) :- ProtectedHdr(prot, false);
    var early := match AlgField(prot, ps, false) { case Some(a) => a case None => ALG_UNSET };
    if EarlyPolicy(early, v, contentAlg).Fail? then Err(EarlyPolicy(early, v, contentAlg).error)
    else
      var (us, l) :- UnprotectedHdr(s, k, Labels(ps), false);
      Ok(Body(prot, ps, us), l)
  }

  function SelectedRecipient(s: seq<byte>, i: nat, mode: int, v: Verifier, contentAlg: i64, contentProtected: bool)
    : (r: Dec<Selected>)
    ensures r.Ok? ==> i < r.next <= |s|
  {
    var (n, j) :- DecodeArray(s, i, false);
    if n != 3 then Err(CborMalformed)
    else
      var (b, l) :- BucketsWithPolicy(s, j, v, contentAlg);
      var alg := BodyAlg(s, b);
      var late := LatePolicy(alg, b.prot, mode, v, contentAlg, contentProtected);
      if late.Fail? then Err(late.error)
      else
        var (w, e) :- RecipientValue(s, l, alg);
        Ok(Selected(alg, NextMode(alg, mode).value, w), e)
  }

  /** The nonce of a message; none is an empty one. */
  function NonceOf(s: seq<byte>, b: Body): (iv: seq<byte>) {
    match BodyIv(s, b) { case Some(iv) => iv case None => [] }
  }

  /** The recipients, to the end of the message, with one selected. */
  function SelectionOf(s: seq<byte>, j: nat, index: nat, v: Verifier, contentAlg: i64, contentProtected: bool)
    : (r: Dec<Selected>)
    ensures r.Ok? ==> r.next == |s|
  {
    var (count, l) :- DecodeArray(s, j, false);
    if index >= count then Err(InvalidArg)
    else
      var (m, f) :- SkipOthers(s, l, index, MODE_NONE);
      var (ch, g) :- SelectedRecipient(s, f, m, v, contentAlg, contentProtected);
      var (_, e) :- SkipOthers(s, g, count - index - 1, ch.mode);
      if e != |s| then Err(CborMalformed) else Ok(ch, e)
  }

  /** A parsed COSE_Encrypt message, with one recipient selected. */
  datatype EncryptParts = EncryptParts(body: Body, alg: i64, iv: seq<byte>, content: Content, chosen: Selected)

  function ParseEncrypt(s: seq<byte>, index: nat, detached: Option<seq<byte>>, v: Verifier, x: Ciphers)
    : (r: Dec<EncryptParts>)
    ensures r.Ok? ==> r.next == |s|
  {
    var (b, i) :- MessageFront(s, TAG_ENCRYPT, 4);
    var alg := BodyAlg(s, b);
    var (n, _) :- x.nonceLen(alg);
    if |NonceOf(s, b)| != n then Err(CoseBadHdr)
    else
      var (c, j) :- ContentField(s, i, detached);
      var (ch, e) :- SelectionOf(s, j, index, v, alg, AlgProtected(b));
      Ok(EncryptParts(b, alg, NonceOf(s, b), c, ch), e)
  }

  /** The key that opens the content. */
  function OpeningKey(chosen: Selected, v: Verifier, keyLen: nat, x: Ciphers): (r: Crypt) {
    if v.key.None? || !v.key.value.symmetric then Fails(CoseKeyType)
    else if IsKeyWrapAlg(chosen.alg) then
      match x.unwrap(chosen.alg, v.key.value.bytes, chosen.value)
      case Fails(e) => Fails(e)
      case Yields(cek) => if |cek| != keyLen then Fails(CoseKeyType) else Yields(cek)
    else if |v.key.value.bytes| != keyLen || keyLen > SIZE_MAX then Fails(CoseKeyType)
    else Yields(v.key.value.bytes)
  }

  /** `wc_CoseEncrypt_Decrypt`: the plaintext. */
  function Decrypt(s: seq<byte>, index: nat, detached: Option<seq<byte>>, extAad: Field, scratchSz: nat, plaintextSz: nat,
                   v: Verifier, x: Ciphers): (r: Dec<seq<byte>>)
    requires |s| <= SIZE_MAX && (detached.Some? ==> |detached.value| <= SIZE_MAX)
  {
    if s == [] then Err(InvalidArg)
    else
      var (p, e) :- ParseEncrypt(s, index, detached, v, x);
      var (keyLen, _) :- x.keyLen(p.alg);
      var (tagLen, _) :- x.tagLen(p.alg);
      match OpeningKey(p.chosen, v, keyLen, x)
      case Fails(error) => Err(error)
      case Yields(key) =>
        var ct := p.content.bytes;
        if |ct| < tagLen || x.payloadLen(p.alg, |ct| - tagLen).Fail? then Err(CborMalformed)
        else if |ct| - tagLen > plaintextSz then Err(CborOverflow)
        else
          EncryptSized(s, index, detached, v, x);
          var aad := EncStructure(CONTEXT_ENCRYPT, p.body.prot, extAad);
          if |aad| > scratchSz then Err(BufferTooSmall)
          else
            match x.open(p.alg, key, p.iv, aad, ct)
            case Fails(error) => Err(error)
            case Yields(plaintext) => Ok(plaintext, e)
  }

  lemma EncryptSized(s: seq<byte>, index: nat, detached: Option<seq<byte>>, v: Verifier, x: Ciphers)
    requires ParseEncrypt(s, index, detached, v, x).Ok? && |s| <= SIZE_MAX
    ensures |ParseEncrypt(s, index, detached, v, x).value.body.prot| <= SIZE_MAX
  {
    hide DecodeString, DecodeContainer, ProtectedHdr, UnprotectedHdr, SkipOthers, SelectedRecipient, DecodeTag, PeekType,
         DecodeHead, NonceOf, BodyAlg;
    var i := OptionalTag(s, TAG_ENCRYPT).next;
    BstrSized(s, DecodeArray(s, i, false).next);
  }

  // ----- What is encrypted -----

  /** A call that creates a message; `random` is what the generator yields for a fresh key, or
      none without a generator. */
  datatype Encryption = Encryption(rs: seq<Recipient>, alg: i64, iv: Bytes, payload: Option<Bytes>,
                                   detached: Option<Bytes>, extAad: Bytes, scratchSz: nat, outSz: nat,
                                   random: Option<nat -> Crypt>)

  predicate FitsWord32(c: Encryption) {
    && (c.payload.Some? ==> |c.payload.value| <= WORD32_MAX) && (c.detached.Some? ==> |c.detached.value| <= WORD32_MAX)
    && |c.extAad| <= WORD32_MAX && c.scratchSz <= WORD32_MAX && c.outSz <= WORD32_MAX
  }

  /** Every recipient wraps, with a symmetric key of the size its algorithm asks for. */
  predicate WrapKeysOk(rs: seq<Recipient>, x: Ciphers) {
    forall i :: 0 <= i < |rs| ==>
      && IsKeyWrapAlg(rs[i].alg)
      && rs[i].key.Some? && (rs[i].key.value.alg == ALG_UNSET || rs[i].key.value.alg == rs[i].alg)
      && rs[i].key.value.symmetric
      && x.wrapKeyLen(rs[i].alg).Ok? && |rs[i].key.value.bytes| == x.wrapKeyLen(rs[i].alg).value
  }

  /** Every recipient is direct, and the first brings a key of the content algorithm's size. */
  predicate DirectKeysOk(rs: seq<Recipient>, alg: i64, keyLen: nat) {
    && |rs| > 0 && rs[0].key.Some? && rs[0].key.value.symmetric && |rs[0].key.value.bytes| == keyLen
    && AllDirect(rs) && KeysOk(rs, alg)
  }

  /** The arguments are accepted. */
  predicate Acceptable(c: Encryption, x: Ciphers) {
    && |c.rs| > 0 && |c.iv| > 0 && FitsWord32(c) && KidsOk(c.rs)
    && (c.payload.Some? || c.detached.Some?)
    && x.keyLen(c.alg).Ok? && x.tagLen(c.alg).Ok?
    && x.payloadLen(c.alg, |if c.detached.Some? then c.detached.value else c.payload.value|).Success?
    && x.nonceLen(c.alg).Ok? && |c.iv| == x.nonceLen(c.alg).value
  }

  predicate Wraps(c: Encryption)
    requires |c.rs| > 0
  {
    IsKeyWrapAlg(c.rs[0].alg)
  }

  /** The key for the content: a fresh one to wrap, or the shared one. */
  function FreshKey(c: Encryption, x: Ciphers): (r: Option<Bytes>)
    requires Acceptable(c, x)
  {
    if Wraps(c) then
      if c.random.None? || !WrapKeysOk(c.rs, x) then None
      else match c.random.value(x.keyLen(c.alg).value) { case Fails(_) => None case Yields(k) => Some(k) }
    else if !DirectKeysOk(c.rs, c.alg, x.keyLen(c.alg).value) || |c.rs[0].key.value.bytes| > SIZE_MAX then None
    else Some(c.rs[0].key.value.bytes)
  }

  function Aad(c: Encryption): (b: seq<byte>) {
    EncStructure(CONTEXT_ENCRYPT, AlgHeader(c.alg), c.extAad)
  }

  /** What wrapping the content key for a recipient yields; nothing is wrapped for a direct one. */
  function WrappedFor(r: Recipient, wraps: bool, cek: Bytes, x: Ciphers): (w: Crypt) {
    if !wraps then Yields([]) else if r.key.None? then Fails(CoseKeyType) else x.wrap(r.alg, r.key.value.bytes, cek)
  }

  predicate AllWrapped(rs: seq<Recipient>, wraps: bool, cek: Bytes, x: Ciphers) {
    forall i :: 0 <= i < |rs| ==> WrappedFor(rs[i], wraps, cek, x).Yields?
  }

  function OutgoingFor(rs: seq<Recipient>, wraps: bool, cek: Bytes, x: Ciphers): (os: seq<Outgoing>)
    requires AllWrapped(rs, wraps, cek, x)
    ensures |os| == |rs|
    ensures forall i :: 0 <= i < |rs| ==>
      os[i] == Outgoing(rs[i].alg, RecipientKid(rs[i]), WrappedFor(rs[i], wraps, cek, x).bytes)
  {
    seq(|rs|, i requires 0 <= i < |rs| =>
      Outgoing(rs[i].alg, RecipientKid(rs[i]), WrappedFor(rs[i], wraps, cek, x).bytes))
  }

  /** The message that is written with a content key, when it can be sealed, wrapped and held. */
  function Encoded(c: Encryption, key: Bytes, x: Ciphers): (r: Option<seq<byte>>)
    requires 0 < |c.rs| < U64_BOUND
  {
    if c.detached.Some? || c.payload.None? then None
    else match x.seal(c.alg, key, c.iv, Aad(c), c.payload.value)
      case Fails(_) => None
      case Yields(ct) =>
        if !AllWrapped(c.rs, Wraps(c), key, x) then None
        else
          var m := EncryptMessage(c.alg, c.iv, ct, OutgoingFor(c.rs, Wraps(c), key, x));
          if |m| > c.outSz then None else Some(m)
  }

  /** The message a call creates, when everything goes well. */
  function Encrypted(c: Encryption, x: Ciphers): (r: Option<seq<byte>>)
    requires |c.rs| < U64_BOUND
  {
    if !Acceptable(c, x) then None
    else match FreshKey(c, x)
      case None => None
      case Some(key) => if |Aad(c)| > c.scratchSz then None else Encoded(c, key, x)
  }

  // ----- Round trip -----

  /** The written nonce is read back, and the bucket names no algorithm. */
  lemma IvMapAccepted(iv: Bytes, s: seq<byte>, j: nat)
    requires SameSlice(IvMap(iv), 0, s, j, |IvMap(iv)|)
    ensures var es := [Entry(IntLabel(IV), j + 1, j + 2, j + |IvMap(iv)|)];
      && UnprotectedHdr(s, j, {IntLabel(ALG)}, false) == Ok(es, j + |IvMap(iv)|)
      && BstrField(s, es, IV, false) == Some(iv) && AlgField(s, es, false) == None
  {
    hide DecodeHead, EncodeHead, EncodeInt, EncodeString, DecodeMap, Walk, SkipItems, SameSlice, DecodeBstr;
    var m, h, l, v := IvMap(iv), EncodeHead(MAP, 1), EncodeInt(IV), EncodeBstr(iv);
    var es := [Entry(IntLabel(IV), j + 1, j + 2, j + |m|)];
    IvLabel();
    ThreeParts(h, l, v);
    Within(h, m, 0, s, j);
    Within(l, m, 1, s, j);
    Within(v, m, 2, s, j);
    SameSliceBound(m, 0, s, j, |m|);
    DecodeMapIs(s, j, 1);
    IntRoundTrip(IV, false, s, j + 1);
    BstrRead(iv, s, j + 2);
    WalkOneOf(s, j + 1, Unprotected, {IntLabel(ALG)}, IntLabel(IV), j + 2, j + |m|);
    OneEntry(es[0]);
  }

  lemma IvLabel()
    ensures |EncodeInt(IV)| == 1
  {
  }

  /** A written recipient that the reader's key and policy agree with is selected. */
  lemma OutgoingSelected(r: Outgoing, c: seq<byte>, i: nat, mode: int, v: Verifier, contentAlg: i64)
    requires InInt32(r.alg) && SameSlice(RecipientBytes(r), 0, c, i, |RecipientBytes(r)|)
    requires LatePolicy(r.alg, [], mode, v, contentAlg, true).Success?
    requires if IsKeyWrapAlg(r.alg) then |r.value| >= 24 else r.value == []
    ensures SelectedRecipient(c, i, mode, v, contentAlg, true)
         == Ok(Selected(r.alg, NextMode(r.alg, mode).value, r.value), i + |RecipientBytes(r)|)
  {
    hide DecodeHead, SameSlice, DecodeContainer, AlgKidMap, EncodeString, RecipientBytes, BodyAlg, DecodeBstr, Mode,
         UnprotectedHdr, AlgField, NextMode, KeyAlgStatus, SkippedMap;
    RecipientParts(r, c, i);
    AlgKidAccepted(r.alg, r.kid, c, i + 2);
    OutgoingBuckets(r, c, i);
    NotNull(c, i + 2 + |AlgKidMap(r.alg, r.kid)|);
    NoLabels();
    NoAlg();
    AlgWhenFound(c, UnprotectedHdr(c, i + 2, {}, false).value, r.alg);
  }

  lemma NoAlg()
    ensures AlgField([], [], false) == None && ProtectedHdr([], false) == Ok([], 0)
  {
  }

  lemma AlgWhenFound(s: seq<byte>, us: seq<Entry>, alg: i64)
    requires AlgField(s, us, false) == Some(alg)
    ensures BodyAlg(s, Body([], [], us)) == alg
  {
    hide AlgField;
  }

  lemma LateAgrees(r: Outgoing, m: int, mode: int, v: Verifier, contentAlg: i64)
    requires OneMode([r], mode) && (m == MODE_NONE || m == mode)
    requires IsKeyWrapAlg(r.alg) || r.alg == ALG_DIRECT
    requires KeyAlgStatus(v.key, r.alg, contentAlg).Success? && (v.policy == ALG_UNSET || v.policy == r.alg)
    ensures NextMode(r.alg, m) == Some(mode) && LatePolicy(r.alg, [], m, v, contentAlg, true).Success?
  {
    hide Mode, KeyAlgStatus;
    assert [r][0] == r;
  }

  /** The list of recipients, with one selected. */
  lemma ListSelected(rs: seq<Outgoing>, index: nat, s: seq<byte>, l: nat, mode: int, v: Verifier, contentAlg: i64)
    requires index < |rs| && OneMode(rs, mode)
    requires SameSlice(RecipientsBytes(rs), 0, s, l, |RecipientsBytes(rs)|)
    requires if IsKeyWrapAlg(rs[index].alg) then |rs[index].value| >= 24 else rs[index].alg == ALG_DIRECT
    requires KeyAlgStatus(v.key, rs[index].alg, contentAlg).Success?
    requires v.policy == ALG_UNSET || v.policy == rs[index].alg
    ensures var m := SkipOthers(s, l, index, MODE_NONE);
      && m.Ok?
      && var c := SelectedRecipient(s, m.next, m.value, v, contentAlg, true);
         && c.Ok? && c.value == Selected(rs[index].alg, mode, rs[index].value)
         && SkipOthers(s, c.next, |rs| - index - 1, c.value.mode) == Ok(mode, l + |RecipientsBytes(rs)|)
  {
    hide RecipientBytes, RecipientsBytes, SkipOthers, SameSlice, SelectedRecipient, KeyAlgStatus, LatePolicy,
         IsKeyWrapAlg, NextMode, OneMode;
    ListCut(rs, index, s, l, mode);
    var r := rs[index];
    var i := l + |RecipientsBytes(rs[..index])|;
    RecipientsSkipped(rs[..index], s, l, MODE_NONE, mode);
    var m := if index == 0 then MODE_NONE else mode;
    ModeOfOne(r, mode);
    LateAgrees(r, m, mode, v, contentAlg);
    OutgoingSelected(r, s, i, m, v, contentAlg);
    RecipientsSkipped(rs[index + 1..], s, i + |RecipientBytes(r)|, mode, mode);
  }

  lemma ModeOfOne(r: Outgoing, mode: int)
    requires OneMode([r], mode)
    ensures InInt32(r.alg) && mode != MODE_NONE && (r.alg == ALG_DIRECT ==> r.value == [])
  {
    hide Mode;
    assert [r][0] == r;
  }

  /** Where the parts of a written message stand. */
  lemma EncryptLayout(alg: i64, iv: Bytes, ct: Bytes, rs: seq<Outgoing>)
    requires |rs| < U64_BOUND
    ensures var s := EncryptMessage(alg, iv, ct, rs);
      var f, m, c, h, b := FrontBytes(TAG_ENCRYPT, 4, alg), IvMap(iv), EncodeBstr(ct), EncodeHead(ARRAY, |rs|),
                           RecipientsBytes(rs);
      var i := |f| + |m|; var j := i + |c|; var k := j + HeadSize(|rs|);
      && |s| == k + |b| && SameSlice(f, 0, s, 0, |f|) && SameSlice(m, 0, s, |f|, |m|) && SameSlice(c, 0, s, i, |c|)
      && SameSlice(h, 0, s, j, HeadSize(|rs|)) && SameSlice(b, 0, s, k, |b|) && |c| >= 1
  {
    hide FrontBytes, IvMap, EncodeString, EncodeHead, RecipientsBytes, SameSlice, HeadSize;
    var f, m, c, h, b := FrontBytes(TAG_ENCRYPT, 4, alg), IvMap(iv), EncodeBstr(ct), EncodeHead(ARRAY, |rs|),
                         RecipientsBytes(rs);
    var s := EncryptMessage(alg, iv, ct, rs);
    FourParts(f, m, c + h + b, []);
    assert s == f + m + (c + h + b) + [];
    ThreeParts(c, h, b);
    Within(c, c + h + b, 0, s, |f| + |m|);
    Within(h, c + h + b, |c|, s, |f| + |m|);
    Within(b, c + h + b, |c| + |h|, s, |f| + |m|);
  }

  /** The front of a written message: its algorithm is protected and its nonce is there. */
  lemma EncryptFrontParses(alg: i64, iv: Bytes, ct: Bytes, rs: seq<Outgoing>)
    requires InInt32(alg) && 0 < |rs| < U64_BOUND
    ensures var s := EncryptMessage(alg, iv, ct, rs); var f := |FrontBytes(TAG_ENCRYPT, 4, alg)| + |IvMap(iv)|;
      var r := MessageFront(s, TAG_ENCRYPT, 4);
      && r.Ok? && r.next == f && r.value.prot == AlgHeader(alg) && AlgProtected(r.value)
      && BodyAlg(s, r.value) == alg && NonceOf(s, r.value) == iv
  {
    hide FrontBytes, IvMap, EncryptMessage, MessageFront, BodyAlg, AlgField, SameSlice, HeadSize, UnprotectedHdr,
         AlgHeader, AlgProtected, EncodeHead, RecipientsBytes, EncodeBstr, BstrField;
    var s, f := EncryptMessage(alg, iv, ct, rs), FrontBytes(TAG_ENCRYPT, 4, alg);
    EncryptLayout(alg, iv, ct, rs);
    RecipientsLength(rs);
    FrontSmall(TAG_ENCRYPT, 4, alg);
    IvMapAccepted(iv, s, |f|);
    var es := [Entry(IntLabel(IV), |f| + 1, |f| + 2, |f| + |IvMap(iv)|)];
    FrontAccepted(TAG_ENCRYPT, 4, alg, s, es, |f| + |IvMap(iv)|);
  }

  /** What follows the front of a written message. */
  lemma EncryptBackParses(ct: Bytes, rs: seq<Outgoing>, index: nat, detached: Option<seq<byte>>, mode: int, v: Verifier,
                          alg: i64, s: seq<byte>, i: nat, j: nat, l: nat)
    requires index < |rs| < U64_BOUND && OneMode(rs, mode)
    requires if IsKeyWrapAlg(rs[index].alg) then |rs[index].value| >= 24 else rs[index].alg == ALG_DIRECT
    requires KeyAlgStatus(v.key, rs[index].alg, alg).Success?
    requires v.policy == ALG_UNSET || v.policy == rs[index].alg
    requires j == i + |EncodeBstr(ct)| && l == j + HeadSize(|rs|) && |s| == l + |RecipientsBytes(rs)|
    requires SameSlice(EncodeBstr(ct), 0, s, i, |EncodeBstr(ct)|)
    requires SameSlice(EncodeHead(ARRAY, |rs|), 0, s, j, HeadSize(|rs|))
    requires SameSlice(RecipientsBytes(rs), 0, s, l, |RecipientsBytes(rs)|)
    ensures ContentField(s, i, detached) == Ok(Content(ct, Some(ct)), j) && DecodeArray(s, j, false) == Ok(|rs|, l)
    ensures var m := SkipOthers(s, l, index, MODE_NONE);
      && m.Ok?
      && var h := SelectedRecipient(s, m.next, m.value, v, alg, true);
         && h.Ok? && h.value == Selected(rs[index].alg, mode, rs[index].value)
         && SkipOthers(s, h.next, |rs| - index - 1, h.value.mode) == Ok(mode, |s|)
  {
    hide *;
    RecipientsLength(rs);
    EmbeddedBytes(ct);
    ContentAccepted(Some(ct), detached, s, i);
    DecodeArrayIs(s, j, |rs|);
    ListSelected(rs, index, s, l, mode, v, alg);
  }

  lemma EmbeddedBytes(ct: Bytes)
    ensures ContentBytes(Some(ct)) == EncodeBstr(ct)
  {
    hide EncodeBstr;
  }

  /** A written message parses at every recipient index for a reader that agrees with it. */
  lemma EncryptParses(alg: i64, iv: Bytes, ct: Bytes, rs: seq<Outgoing>, index: nat, detached: Option<seq<byte>>,
                      mode: int, v: Verifier, x: Ciphers)
    requires InInt32(alg) && index < |rs| < U64_BOUND && OneMode(rs, mode)
    requires if IsKeyWrapAlg(rs[index].alg) then |rs[index].value| >= 24 else rs[index].alg == ALG_DIRECT
    requires KeyAlgStatus(v.key, rs[index].alg, alg).Success? && (v.policy == ALG_UNSET || v.policy == rs[index].alg)
    requires x.nonceLen(alg).Ok? && x.nonceLen(alg).value == |iv|
    ensures var s := EncryptMessage(alg, iv, ct, rs); var r := ParseEncrypt(s, index, detached, v, x);
      && r.Ok? && r.value.alg == alg && r.value.iv == iv && r.value.body.prot == AlgHeader(alg)
      && r.value.content.bytes == ct && r.value.chosen == Selected(rs[index].alg, mode, rs[index].value)
  {
    hide MessageFront, ContentField, DecodeArray, SkipOthers, SelectedRecipient, BodyAlg, AlgHeader, AlgProtected,
         EncryptMessage, NonceOf, KeyAlgStatus, OneMode, IsKeyWrapAlg, EncodeBstr, RecipientsBytes, FrontBytes, IvMap, HeadSize,
         EncodeHead, SameSlice;
    EncryptFrontParses(alg, iv, ct, rs);
    EncryptLayout(alg, iv, ct, rs);
    var s, i := EncryptMessage(alg, iv, ct, rs), |FrontBytes(TAG_ENCRYPT, 4, alg)| + |IvMap(iv)|;
    var j := i + |EncodeBstr(ct)|;
    EncryptBackParses(ct, rs, index, detached, mode, v, alg, s, i, j, j + HeadSize(|rs|));
  }

  /** The recipients that are written are of one mode. */
  lemma OutgoingMode(c: Encryption, x: Ciphers, key: Bytes)
    requires Acceptable(c, x) && FreshKey(c, x) == Some(key) && AllWrapped(c.rs, Wraps(c), key, x) && Lawful(x)
    ensures var os := OutgoingFor(c.rs, Wraps(c), key, x);
      && OneMode(os, if Wraps(c) then MODE_KEY_TRANSPORT else MODE_DIRECT_ENCRYPTION)
      && forall i :: 0 <= i < |os| ==>
           && IsKeyWrapAlg(os[i].alg) == Wraps(c) && (!Wraps(c) ==> os[i].alg == ALG_DIRECT)
           && (Wraps(c) ==> |os[i].value| >= 24 && c.rs[i].key.Some?
                            && x.unwrap(os[i].alg, c.rs[i].key.value.bytes, os[i].value) == Yields(key))
  {
    forall i | 0 <= i < |c.rs|
      ensures Wraps(c) ==> IsKeyWrapAlg(c.rs[i].alg) && c.rs[i].key.Some?
      ensures !Wraps(c) ==> c.rs[i].alg == ALG_DIRECT
      ensures WrappedFor(c.rs[i], Wraps(c), key, x).Yields?
    {
    }
  }

  /** The generator fills as many bytes as it is asked for. */
  ghost predicate Fills(random: Option<nat -> Crypt>) {
    random.Some? ==> forall n: nat :: random.value(n).Yields? ==> |random.value(n).bytes| == n
  }

  lemma SealedLaw(x: Ciphers, alg: i64, key: Bytes, iv: Bytes, aad: Bytes, p: Bytes)
    requires Lawful(x) && x.seal(alg, key, iv, aad, p).Yields? && x.tagLen(alg).Ok?
    ensures x.open(alg, key, iv, aad, x.seal(alg, key, iv, aad, p).bytes) == Yields(p)
    ensures |x.seal(alg, key, iv, aad, p).bytes| == |p| + x.tagLen(alg).value
  {
  }

  /** The key of a recipient agrees with the algorithms of the message. */
  lemma KeyAgrees(c: Encryption, x: Ciphers, index: nat)
    requires Acceptable(c, x) && FreshKey(c, x).Some? && index < |c.rs|
    ensures KeyAlgStatus(if Wraps(c) then c.rs[index].key else c.rs[0].key, c.rs[index].alg, c.alg).Success?
  {
  }

  lemma EncryptNotEmpty(alg: i64, iv: Bytes, ct: Bytes, rs: seq<Outgoing>)
    requires |rs| < U64_BOUND
    ensures EncryptMessage(alg, iv, ct, rs) != []
  {
    hide IvMap, EncryptBack;
    FrontSmall(TAG_ENCRYPT, 4, alg);
  }

  lemma KeySizes(c: Encryption, x: Ciphers, key: Bytes)
    requires Acceptable(c, x) && FreshKey(c, x) == Some(key) && Fills(c.random)
    ensures |key| == x.keyLen(c.alg).value <= SIZE_MAX
    ensures !Wraps(c) ==> c.rs[0].key.Some? && c.rs[0].key.value.bytes == key
    ensures forall i :: 0 <= i < |c.rs| ==>
      var k := if Wraps(c) then c.rs[i].key else c.rs[0].key; k.Some? && k.value.symmetric
  {
  }

  /** Whatever the number of recipients, their key identifiers, the plaintext, the nonce and the
      external data: an encrypted message is decrypted at every recipient index, with that
      recipient's key for key wrap and with the shared key otherwise, to the same plaintext. */
  lemma EncryptRoundTrip(c: Encryption, x: Ciphers, index: nat, detached: Option<Bytes>, scratchSz: nat,
                         plaintextSz: nat, policy: i64)
    requires |c.rs| < U64_BOUND && Encrypted(c, x).Some? && Lawful(x) && Fills(c.random) && InInt32(c.alg) && index < |c.rs|
    requires |Aad(c)| <= scratchSz && |c.payload.value| <= plaintextSz
    requires policy == ALG_UNSET || policy == c.rs[index].alg
    ensures var s := Encrypted(c, x).value; var key := if Wraps(c) then c.rs[index].key else c.rs[0].key;
      |s| <= SIZE_MAX &&
      Decrypt(s, index, detached, c.extAad, scratchSz, plaintextSz, Verifier(key, policy), x)
      == Ok(c.payload.value, |s|)
  {
    hide EncryptMessage, ParseEncrypt, AlgHeader, EncStructure, OneMode, IsKeyWrapAlg, Lawful;
    var key := FreshKey(c, x).value;
    var os := OutgoingFor(c.rs, Wraps(c), key, x);
    OutgoingMode(c, x, key);
    var ct := x.seal(c.alg, key, c.iv, Aad(c), c.payload.value).bytes;
    SealedLaw(x, c.alg, key, c.iv, Aad(c), c.payload.value);
    var mode := if Wraps(c) then MODE_KEY_TRANSPORT else MODE_DIRECT_ENCRYPTION;
    var v := Verifier(if Wraps(c) then c.rs[index].key else c.rs[0].key, policy);
    KeyAgrees(c, x, index);
    EncryptParses(c.alg, c.iv, ct, os, index, detached, mode, v, x);
    EncryptNotEmpty(c.alg, c.iv, ct, os);
    KeySizes(c, x, key);
  }
}
