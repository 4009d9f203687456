/**
 A key as the caller holds it: its fields, the object attached to it, and what wolfCrypt exports
 and measures of that object.  What is written follows from these and the flags of the call, and
 so does the size that is predicted; the two calls are related here.
 */
module KeyStore {
  import opened Wire
  import opened Memory
  import opened Cbor
  import opened Header
  import opened CountersignAdd
  import opened Sizes
  import opened Keys
  import opened KeyWriting

  /** The private numbers of an RSA key, as they are exported: the exponent at its natural width. */
  datatype RsaNumbers = RsaNumbers(d: Bytes, p: Bytes, q: Bytes, dp: Bytes, dq: Bytes, qi: Bytes)

  datatype Point = Point(x: Bytes, y: Bytes)

  /** An attached object, by what wolfCrypt exports of it; what it cannot export is none. */
  datatype Object =
    | EccKey(point: Option<Point>, scalar: Option<Bytes>)
    | RsaKey(n: Bytes, e: Bytes, numbers: Option<RsaNumbers>)
    | MlDsaKey(pub: Bytes)
    | LmsKey(pub: Bytes, holdsPublic: bool)
    | EdwardsKey(pub: Bytes, priv: Option<Bytes>)
    | Secret(k: Bytes)

  datatype StoredKey = StoredKey(alg: int, crv: int, kid: Bytes, hasPrivate: bool, delegated: bool, deviceBacked: bool,
                                 seed: Option<Bytes>, obj: Object)

  /** The buffer that an RSA public exponent is exported into. */
  const RSA_E_MAX_SZ := 8

  /** `wolfCose_KeyEmitsPrivate`: not for a delegated signer, nor when only the public half is
      asked for. */
  predicate KeyEmitsPrivate(key: StoredKey, publicOnly: bool) {
    key.hasPrivate && !publicOnly && !key.delegated
  }

  /** Whether the private half is written: an RSA key on a device has none to export, and an
      ML-DSA key is written with its seed. */
  predicate Emits(key: StoredKey, publicOnly: bool) {
    && KeyEmitsPrivate(key, publicOnly)
    && (key.obj.RsaKey? ==> !key.deviceBacked)
    && (key.obj.MlDsaKey? ==> key.seed.Some? && |key.seed.value| == MLDSA_SEED_SZ)
  }

  /** `wolfCose_CrvKeySize`. */
  function CurveSize(crv: int): (n: Option<nat>) {
    if CoordinateSize(crv).Some? then CoordinateSize(crv) else EdwardsSize(crv)
  }

  // ----- Encoding -----

  /** What is refused before anything is written, and the exports that fail. */
  function EncodeStatus(key: StoredKey, publicOnly: bool): (r: Status) {
    var emits := Emits(key, publicOnly);
    match key.obj
    case EccKey(point, scalar) =>
      (match CurveSize(key.crv)
       case None => Fail(CoseBadAlg)
       case Some(n) =>
         if point.None? then Fail(Crypto)
         else if |point.value.x| != n || |point.value.y| != n then Fail(CoseKeyType)
         else if emits && scalar.None? then Fail(Crypto)
         else if emits && |scalar.value| != n then Fail(CoseKeyType)
         else Success)
    case RsaKey(n, e, numbers) =>
      if |e| > RSA_E_MAX_SZ || (emits && (numbers.None? || |numbers.value.d| > |n|)) then Fail(Crypto) else Success
    case MlDsaKey(_) => if key.alg == 0 then Fail(CoseBadAlg) else Success
    case LmsKey(_, holdsPublic) =>
      if key.alg != 0 && key.alg != ALG_HSS_LMS then Fail(CoseBadAlg)
      else if !holdsPublic then Fail(CoseKeyType)
      else Success
    case EdwardsKey(_, priv) =>
      if EdwardsSize(key.crv).None? then Fail(CoseBadAlg)
      else if emits && priv.None? then Fail(Crypto)
      else Success
    case Secret(k) => if publicOnly || k == [] || key.delegated then Fail(CoseKeyType) else Success
  }

  /** A number in big-endian form, padded on the left to a width. */
  function Padded(raw: Bytes, width: nat): (b: Bytes)
    requires |raw| <= width <= SIZE_MAX
    ensures |b| == width
  {
    Zeros(width - |raw|) + raw
  }

  /** What a call writes of an object. */
  function ToWrite(key: StoredKey, publicOnly: bool): (m: Material)
    requires EncodeStatus(key, publicOnly).Success?
  {
    var emits := Emits(key, publicOnly);
    match key.obj
    case EccKey(point, scalar) => Ec2(point.value.x, point.value.y, if emits then scalar else None)
    case RsaKey(n, e, numbers) =>
      if emits then
        var s := numbers.value;
        Rsa(n, e, Some(RsaPrivate(Padded(s.d, |n|), s.p, s.q, s.dp, s.dq, s.qi)))
      else Rsa(n, e, None)
    case MlDsaKey(pub) => Akp(pub, if emits then key.seed else None)
    case LmsKey(pub, _) => HssLms(pub)
    case EdwardsKey(pub, priv) => Okp(pub, if emits then priv else None)
    case Secret(k) => Symmetric(k)
  }

  /** The key that a call writes. */
  function Coded(key: StoredKey, publicOnly: bool): (c: CoseKey)
    requires InInt32(key.alg) && EncodeStatus(key, publicOnly).Success?
    ensures Writable(c)
  {
    CoseKey(key.alg, if CurveSize(key.crv).Some? then key.crv else 0, key.kid, ToWrite(key, publicOnly))
  }

  /** The numbers of an RSA key that have half the width of its modulus. */
  predicate Halves(p: RsaPrivate, width: nat) {
    |p.p| == |p.q| == |p.dp| == |p.dq| == |p.qi| == (width + 1) / 2
  }

  /** What the direct exports check of the numbers that they write. */
  predicate Sound(m: Material) {
    match m
    case Rsa(n, _, p) => 0 < |n| <= 65535 && (p.Some? ==> Halves(p.value, |n|))
    case Akp(pub, _) => 256 <= |pub| <= 65535
    case _ => true
  }

  /** Whether an exponent was exported at all. */
  predicate ExponentThere(key: StoredKey, publicOnly: bool) {
    key.obj.RsaKey? && Emits(key, publicOnly) && key.obj.numbers.Some? ==> key.obj.numbers.value.d != []
  }

  /** A key that can be encoded, given room. */
  predicate Encodable(key: StoredKey, publicOnly: bool) {
    && EncodeStatus(key, publicOnly).Success? && Sound(ToWrite(key, publicOnly)) && ExponentThere(key, publicOnly)
  }

  /** What stands before the private exponent of an RSA key. */
  function BeforeExponent(key: CoseKey): (n: nat)
    requires Writable(key) && key.material.Rsa?
  {
    HeadSize(|KeyEntries(key)|) + |EntriesBytes(KeyEntries(key)[..|CommonEntries(key)| + 2])|
  }

  /** Label and reserved head of an exponent, and the numbers that are exported at once with it. */
  function ExponentRoom(width: nat): (n: nat) {
    1 + 3 + 3 * width + 8
  }

  /** The room that encoding takes: that of the key, and for a private RSA key that of its exponent
      with the numbers that are exported along with it. */
  function RoomFor(key: CoseKey): (n: nat)
    requires Writable(key)
    ensures n >= |KeyBytes(key)|
  {
    if key.material.Rsa? && key.material.private.Some? then
      var work := BeforeExponent(key) + ExponentRoom(|key.material.n|);
      if work > |KeyBytes(key)| then work else |KeyBytes(key)|
    else |KeyBytes(key)|
  }

  /** Whether encoding succeeds. */
  predicate Encodes(key: StoredKey, publicOnly: bool, outSz: nat)
    requires InInt32(key.alg)
  {
    Encodable(key, publicOnly) && RoomFor(Coded(key, publicOnly)) <= outSz
  }

  // ----- Measuring -----

  /** What wolfCrypt measures of an object. */
  datatype Width = EccWidth(n: nat) | RsaWidth(modulus: nat, exponent: nat) | MlDsaWidth(n: nat) | LmsWidth(n: nat) | NoWidth

  /** wolfCrypt measures what it exports, and Edwards curve keys have the width of their curve. */
  predicate Measures(key: StoredKey, w: Width) {
    match key.obj
    case EccKey(point, _) => w.EccWidth? && w.n <= SIZE_MAX && (point.Some? ==> |point.value.x| == |point.value.y| == w.n)
    case RsaKey(n, e, _) => w == RsaWidth(|n|, |e|)
    case MlDsaKey(pub) => w == MlDsaWidth(|pub|)
    case LmsKey(pub, _) => w == LmsWidth(|pub|)
    case EdwardsKey(pub, priv) =>
      w == NoWidth && (EdwardsSize(key.crv).Some? ==>
        |pub| == EdwardsSize(key.crv).value && (priv.Some? ==> |priv.value| == |pub|))
    case Secret(_) => w == NoWidth
  }

  /** What is refused before a size is given. */
  function SizeStatus(key: StoredKey, w: Width, publicOnly: bool): (r: Status)
    requires Measures(key, w)
  {
    match key.obj
    case EccKey(_, _) =>
      (match CurveSize(key.crv)
       case None => Fail(CoseBadAlg)
       case Some(n) => if w.n == n then Success else Fail(CoseKeyType))
    case RsaKey(_, _, _) =>
      if w.modulus == 0 || w.exponent == 0 || w.exponent > RSA_E_MAX_SZ then Fail(Crypto) else Success
    case MlDsaKey(_) =>
      if key.alg == 0 then Fail(CoseBadAlg) else if w.n < 256 || w.n > 65535 then Fail(BufferTooSmall) else Success
    case LmsKey(_, holdsPublic) =>
      if key.alg != 0 && key.alg != ALG_HSS_LMS then Fail(CoseBadAlg)
      else if !holdsPublic then Fail(CoseKeyType)
      else Success
    case EdwardsKey(_, _) => if EdwardsSize(key.crv).None? then Fail(CoseBadAlg) else Success
    case Secret(k) => if publicOnly || k == [] || key.delegated then Fail(CoseKeyType) else Success
  }

  function KtyOfObject(o: Object): (kty: nat)
    ensures 1 <= kty <= 7
  {
    match o
    case EccKey(_, _) => KTY_EC2
    case RsaKey(_, _, _) => KTY_RSA
    case MlDsaKey(_) => KTY_AKP
    case LmsKey(_, _) => KTY_HSS_LMS
    case EdwardsKey(_, _) => KTY_OKP
    case Secret(_) => KTY_SYMMETRIC
  }

  /** The measures that a size is made of: the same rule as in encoding decides on the private half. */
  function MeasureOf(key: StoredKey, w: Width, publicOnly: bool): (z: Measure)
    requires Measures(key, w)
    ensures SizeStatus(key, w, publicOnly).Success? ==> Measurable(z)
  {
    var emits := Emits(key, publicOnly);
    match key.obj
    case EccKey(_, _) => Ec2Size(w.n, emits)
    case RsaKey(_, _, _) => RsaSize(w.modulus, w.exponent, emits)
    case MlDsaKey(_) => AkpSize(w.n, emits)
    case LmsKey(_, _) => LmsSize(w.n)
    case EdwardsKey(_, _) => OkpSize(if EdwardsSize(key.crv).Some? then EdwardsSize(key.crv).value else 0, emits)
    case Secret(k) => SymmetricSize(|k|)
  }

  /** `wc_CoseKey_EncodeSize_ex`: the size, or the refusal. */
  function SizeQuery(key: StoredKey, w: Width, publicOnly: bool): (r: Dec<nat>)
    requires InInt32(key.alg) && Measures(key, w)
  {
    if SizeStatus(key, w, publicOnly).Fail? then Err(SizeStatus(key, w, publicOnly).error)
    else
      var n := PredictedFor(key, MeasureOf(key, w, publicOnly));
      if n > SIZE_MAX then Err(InvalidArg) else Ok(n, n)
  }

  /** The predicted size of a key of which only the measures are known. */
  function PredictedFor(key: StoredKey, z: Measure): (n: nat)
    requires InInt32(key.alg) && Measurable(z)
  {
    CommonSize(Outline(key), KtyOfObject(key.obj), 1 + TypeCount(z)) + TypeSize(Outline(key).crv, z)
  }

  /** The fields of a key that have nothing to do with its object. */
  function Outline(key: StoredKey): (c: CoseKey)
    requires InInt32(key.alg)
    ensures Writable(c)
  {
    CoseKey(key.alg, if CurveSize(key.crv).Some? then key.crv else 0, key.kid, Symmetric([]))
  }

  // ----- The two calls -----

  /** What is measured agrees with what is written. */
  lemma MeasuresAgree(key: StoredKey, w: Width, publicOnly: bool)
    requires Encodable(key, publicOnly) && Measures(key, w)
    ensures var z := MeasureOf(key, w, publicOnly);
      && Measurable(z) && Agrees(ToWrite(key, publicOnly), z)
      && KtyOf(ToWrite(key, publicOnly)) == KtyOfObject(key.obj)
  {
  }

  /** A key that can be encoded is refused by the size query in one case only. */
  lemma RefusedOnlyForZero(key: StoredKey, w: Width, publicOnly: bool)
    requires Encodable(key, publicOnly) && Measures(key, w)
    ensures var zero := key.obj.RsaKey? && key.obj.e == [];
      SizeStatus(key, w, publicOnly) == if zero then Fail(Crypto) else Success
  {
  }

  /** Call to call: whenever a key is encoded, the size query for the same key and the same flags
      gives exactly the length of what was written, unless the key is an RSA key with a zero
      exponent; that one is written, and the query refuses it. */
  lemma SizeOfEncoded(key: StoredKey, w: Width, publicOnly: bool, outSz: nat)
    requires InInt32(key.alg) && Encodes(key, publicOnly, outSz) && outSz <= SIZE_MAX && Measures(key, w)
    ensures var zero := key.obj.RsaKey? && key.obj.e == []; var n := |KeyBytes(Coded(key, publicOnly))|;
      && n <= outSz
      && (SizeQuery(key, w, publicOnly) == Ok(n, n) <==> !zero)
      && (zero ==> SizeQuery(key, w, publicOnly) == Err(Crypto))
  {
    hide KeyBytes, RoomFor, TypeSize, Agrees, CommonSize, ToWrite, SizeStatus, Sound;
    RefusedOnlyForZero(key, w, publicOnly);
    MeasuresAgree(key, w, publicOnly);
    var z, c := MeasureOf(key, w, publicOnly), Coded(key, publicOnly);
    SizeIsExact(c, z);
    SameCommon(c, Outline(key), KtyOfObject(key.obj), 1 + TypeCount(z));
  }

  lemma SameCommon(a: CoseKey, b: CoseKey, kty: nat, entries: nat)
    requires Writable(a) && Writable(b) && kty <= 7 && entries <= 9 && a.alg == b.alg && a.kid == b.kid
    ensures CommonSize(a, kty, entries) == CommonSize(b, kty, entries)
  {
    hide StringSize, HeadSize, IntSize;
  }

  /** The key on which the two calls part: 2048 bits of modulus, and no exponent. */
  function ZeroExponent(): (key: StoredKey) {
    StoredKey(0, 0, [], false, false, false, None, RsaKey(Zeros(256), [], None))
  }

  /** It is encoded, and its size is refused. */
  lemma ZeroExponentParts()
    ensures Encodes(ZeroExponent(), false, RoomFor(Coded(ZeroExponent(), false)))
    ensures Measures(ZeroExponent(), RsaWidth(256, 0)) && SizeQuery(ZeroExponent(), RsaWidth(256, 0), false) == Err(Crypto)
  {
    hide RoomFor;
    assert Encodable(ZeroExponent(), false);
  }

  /** The flags decide: when only the public half is asked for, or the signer is delegated, no
      private part of an asymmetric key is written. */
  lemma PublicOnly(key: StoredKey, publicOnly: bool)
    requires EncodeStatus(key, publicOnly).Success? && (publicOnly || key.delegated || !key.hasPrivate)
    ensures match ToWrite(key, publicOnly)
            case Ec2(_, _, d) => d == None
            case Rsa(_, _, p) => p == None
            case Akp(_, s) => s == None
            case Okp(_, p) => p == None
            case HssLms(_) => true
            case Symmetric(_) => !publicOnly && !key.delegated
  {
  }
}
