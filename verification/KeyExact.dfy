/**
 What encoding makes of a key that the caller holds, spelled out: which keys are encoded, the bytes of
 the map with its labels (sections 7.1 of RFC 9052, 2.1 of RFC 9053, 4 of RFC 8230), and what a reader
 finds under them.
 */
module KeyExact {
  import opened Wire
  import opened Memory
  import opened Cbor
  import opened CborRoundTrip
  import opened Header
  import opened CountersignLists
  import opened CountersignAdd
  import opened Keys
  import opened KeyWriting
  import opened KeyStore

  /** The private part is written: there is one, it was not left out on request, no callback signs
      instead; an RSA key is not on a device, and an ML-DSA key has a seed of 32 bytes. */
  predicate PrivateThere(key: StoredKey, publicOnly: bool) {
    && key.hasPrivate && !publicOnly && !key.delegated
    && (key.obj.RsaKey? ==> !key.deviceBacked)
    && (key.obj.MlDsaKey? ==> key.seed.Some? && |key.seed.value| == 32)
  }

  // ----- The bytes -----

  /** A long byte string: one or two bytes of length. */
  function Long(b: seq<byte>): (s: seq<byte>) {
    (if |b| < 256 then [0x58, |b|] else [0x59, |b| / 0x100 % 0x100, |b| % 0x100]) + b
  }

  /** Key type, key identifier and algorithm, under the labels 1, 2 and 3. */
  function CommonPart(key: StoredKey, kty: byte): (s: seq<byte>)
    requires InInt32(key.alg)
  {
    [0x01, kty] + (if key.kid == [] then [] else [0x02] + EncodeBstr(key.kid))
    + (if key.alg == 0 then [] else [0x03] + EncodeInt(key.alg))
  }

  /** An optional byte string under a label. */
  function Optional(there: bool, lbl: byte, b: Bytes): (s: seq<byte>) {
    if there then [lbl] + EncodeBstr(b) else []
  }

  function OrNone(o: Option<Bytes>): (b: Bytes) {
    match o { case None => [] case Some(b) => b }
  }

  /** The private numbers of an RSA key, under the labels -3 to -8; the exponent has the width of the
      modulus. */
  function RsaPart(s: RsaNumbers, width: nat): (b: seq<byte>)
    requires |s.d| <= width
  {
    [0x22] + Long(Zeros(width - |s.d|) + s.d) + [0x23] + EncodeBstr(s.p) + [0x24] + EncodeBstr(s.q)
    + [0x25] + EncodeBstr(s.dp) + [0x26] + EncodeBstr(s.dq) + [0x27] + EncodeBstr(s.qi)
  }

  /** The type of an object. */
  function TypeNumber(o: Object): (kty: byte) {
    match o
    case EdwardsKey(_, _) => 1
    case EccKey(_, _) => 2
    case RsaKey(_, _, _) => 3
    case Secret(_) => 4
    case LmsKey(_, _) => 5
    case MlDsaKey(_) => 7
  }

  /** What wolfCrypt must have exported. */
  predicate Exportable(key: StoredKey, publicOnly: bool) {
    match key.obj
    case EccKey(point, scalar) => point.Some? && (PrivateThere(key, publicOnly) ==> scalar.Some?)
    case RsaKey(n, _, numbers) => PrivateThere(key, publicOnly) ==> numbers.Some? && |numbers.value.d| <= |n|
    case EdwardsKey(_, priv) => PrivateThere(key, publicOnly) ==> priv.Some?
    case _ => true
  }

  /** The entries of a type, under the labels -1 to -8. */
  function TypePart(key: StoredKey, publicOnly: bool): (s: seq<byte>)
    requires Exportable(key, publicOnly) && InInt32(key.crv)
  {
    var there := PrivateThere(key, publicOnly);
    match key.obj
    case EccKey(point, scalar) =>
      [0x20] + EncodeInt(key.crv) + [0x21] + EncodeBstr(point.value.x) + [0x22] + EncodeBstr(point.value.y)
      + Optional(there, 0x23, OrNone(scalar))
    case RsaKey(n, e, numbers) =>
      [0x20] + Long(n) + [0x21] + EncodeBstr(e) + (if there then RsaPart(numbers.value, |n|) else [])
    case MlDsaKey(pub) => [0x20] + Long(pub) + Optional(there, 0x21, OrNone(key.seed))
    case LmsKey(pub, _) => [0x20] + EncodeBstr(pub)
    case EdwardsKey(pub, priv) =>
      [0x20] + EncodeInt(key.crv) + [0x21] + EncodeBstr(pub) + Optional(there, 0x23, OrNone(priv))
    case Secret(k) => [0x20] + EncodeBstr(k)
  }

  /** How many entries a type has. */
  function TypeEntryCount(key: StoredKey, publicOnly: bool): (n: nat)
    ensures 1 <= n <= 8
  {
    var there := if PrivateThere(key, publicOnly) then 1 else 0;
    match key.obj
    case EccKey(_, _) => 3 + there
    case RsaKey(_, _, _) => 2 + 6 * there
    case MlDsaKey(_) => 1 + there
    case LmsKey(_, _) => 1
    case EdwardsKey(_, _) => 2 + there
    case Secret(_) => 1
  }

  /** How many entries there are. */
  function EntryCount(key: StoredKey, publicOnly: bool): (n: nat)
    ensures n <= 11
  {
    1 + (if key.kid == [] then 0 else 1) + (if key.alg == 0 then 0 else 1) + TypeEntryCount(key, publicOnly)
  }

  /** The map of a key. */
  function KeyMap(key: StoredKey, publicOnly: bool): (s: seq<byte>)
    requires Exportable(key, publicOnly) && InInt32(key.crv) && InInt32(key.alg)
  {
    [0xA0 + EntryCount(key, publicOnly)] + CommonPart(key, TypeNumber(key.obj)) + TypePart(key, publicOnly)
  }

  // ----- Which keys are encoded -----

  /** The curve of an EC2 key and the width of its coordinates. */
  predicate OnCurve(crv: int, width: nat) {
    || (crv == 1 && width == 32) || (crv == 2 && width == 48) || (crv == 3 && width == 66)
    || (crv == 6 && width == 32) || (crv == 7 && width == 57)
  }

  /** What is asked of a key. */
  predicate MayEncode(key: StoredKey, publicOnly: bool) {
    var there := PrivateThere(key, publicOnly);
    match key.obj
    case EccKey(point, scalar) =>
      && point.Some? && |point.value.x| == |point.value.y| && OnCurve(key.crv, |point.value.x|)
      && (there ==> scalar.Some? && |scalar.value| == |point.value.x|)
    case RsaKey(n, e, numbers) =>
      && 0 < |n| <= 65535 && |e| <= 8
      && (there ==>
            && numbers.Some? && 0 < |numbers.value.d| <= |n|
            && var s, half := numbers.value, (|n| + 1) / 2;
               |s.p| == half && |s.q| == half && |s.dp| == half && |s.dq| == half && |s.qi| == half)
    case MlDsaKey(pub) => key.alg != 0 && 256 <= |pub| <= 65535
    case LmsKey(pub, holdsPublic) => (key.alg == 0 || key.alg == -46) && holdsPublic
    case EdwardsKey(pub, priv) => (key.crv == 6 || key.crv == 7) && (there ==> priv.Some?)
    case Secret(k) => !publicOnly && !key.delegated && k != []
  }

  lemma EmitsIs(key: StoredKey, publicOnly: bool)
    ensures Emits(key, publicOnly) <==> PrivateThere(key, publicOnly)
  {
  }

  lemma CurveIs(crv: int, width: nat)
    ensures CurveSize(crv) == Some(width) <==> OnCurve(crv, width)
    ensures CurveSize(crv).Some? ==> 1 <= crv <= 7
  {
  }

  /** A key is encoded if and only if it is one of these, and there is room. */
  lemma EncodesExactly(key: StoredKey, publicOnly: bool, outSz: nat)
    requires InInt32(key.alg)
    ensures Encodable(key, publicOnly) <==> MayEncode(key, publicOnly)
    ensures MayEncode(key, publicOnly) ==> Exportable(key, publicOnly)
    ensures Encodes(key, publicOnly, outSz)
       <==> MayEncode(key, publicOnly) && Encodable(key, publicOnly) && RoomFor(Coded(key, publicOnly)) <= outSz
  {
    hide RoomFor, Coded, Emits, CurveSize, PrivateThere, OnCurve;
    EmitsIs(key, publicOnly);
    match key.obj
    case EccKey(point, scalar) =>
      if point.Some? {
        CurveIs(key.crv, |point.value.x|);
      }
      if CurveSize(key.crv).Some? {
        CurveIs(key.crv, CurveSize(key.crv).value);
      }
    case _ =>
  }

  // ----- The bytes that are written -----

  /** The labels of one byte. */
  lemma LabelBytes()
    ensures EncodeInt(1) == [0x01] && EncodeInt(2) == [0x02] && EncodeInt(3) == [0x03]
    ensures EncodeInt(-1) == [0x20] && EncodeInt(-2) == [0x21] && EncodeInt(-3) == [0x22] && EncodeInt(-4) == [0x23]
    ensures EncodeInt(-5) == [0x24] && EncodeInt(-6) == [0x25] && EncodeInt(-7) == [0x26] && EncodeInt(-8) == [0x27]
  {
  }

  lemma LongIs(b: Bytes)
    ensures ReservedBstr(b) == Long(b)
  {
  }

  lemma EntryAlone(e: KeyEntry)
    ensures EntriesBytes([e]) == EncodeInt(e.lbl) + ValueBytes(e.value)
  {
    hide EncodeInt, ValueBytes;
    assert [e][1..] == [];
  }

  lemma EntriesTwo(a: KeyEntry, b: KeyEntry)
    ensures EntriesBytes([a, b]) == EncodeInt(a.lbl) + ValueBytes(a.value) + EncodeInt(b.lbl) + ValueBytes(b.value)
  {
    hide EncodeInt, ValueBytes, EntriesBytes;
    EntriesJoin([a], [b]);
    EntryAlone(a);
    EntryAlone(b);
    assert [a] + [b] == [a, b];
  }

  lemma EntriesThree(a: KeyEntry, b: KeyEntry, c: KeyEntry)
    ensures EntriesBytes([a, b, c])
         == EncodeInt(a.lbl) + ValueBytes(a.value) + EncodeInt(b.lbl) + ValueBytes(b.value)
            + EncodeInt(c.lbl) + ValueBytes(c.value)
  {
    hide EncodeInt, ValueBytes, EntriesBytes;
    EntriesJoin([a, b], [c]);
    EntriesTwo(a, b);
    EntryAlone(c);
    assert [a, b] + [c] == [a, b, c];
  }

  lemma CommonIs(key: StoredKey, c: CoseKey)
    requires InInt32(key.alg) && c.alg == key.alg && c.kid == key.kid && KtyOf(c.material) == TypeNumber(key.obj)
    ensures EntriesBytes(CommonEntries(c)) == CommonPart(key, TypeNumber(key.obj))
    ensures |CommonEntries(c)| == 1 + (if key.kid == [] then 0 else 1) + (if key.alg == 0 then 0 else 1)
  {
    hide EntriesBytes, EncodeBstr, EncodeInt;
    LabelBytes();
    NoBytes();
    SmallNumber(TypeNumber(key.obj));
    var a := [KeyEntry(KTY, Number(KtyOf(c.material)))];
    var b := OneIf(c.kid != [], KeyEntry(KEY_KID, Octets(c.kid)));
    var d := OneIf(c.alg != 0, KeyEntry(KEY_ALG, Number(c.alg)));
    EntriesJoin(a + b, d);
    EntriesJoin(a, b);
    EntryAlone(a[0]);
    EntryAlone(KeyEntry(KEY_KID, Octets(c.kid)));
    EntryAlone(KeyEntry(KEY_ALG, Number(c.alg)));
  }

  lemma SmallNumber(n: byte)
    requires n <= 23
    ensures EncodeInt(n) == [n]
  {
  }

  lemma OptionalIs(a: seq<KeyEntry>, there: bool, lbl: i64, b: Bytes)
    requires -8 <= lbl <= -1
    ensures EntriesBytes(a + (if there then [KeyEntry(lbl, Octets(b))] else []))
         == EntriesBytes(a) + Optional(there, 0x1F - lbl, b)
  {
    hide EntriesBytes, EncodeBstr, EncodeInt;
    LabelBytes();
    if there {
      EntriesJoin(a, [KeyEntry(lbl, Octets(b))]);
      EntryAlone(KeyEntry(lbl, Octets(b)));
    } else {
      assert a + [] == a;
    }
  }

  lemma RsaIs(s: RsaNumbers, width: nat)
    requires |s.d| <= width <= SIZE_MAX
    ensures EntriesBytes(RsaPrivateEntries(RsaPrivate(Padded(s.d, width), s.p, s.q, s.dp, s.dq, s.qi))) == RsaPart(s, width)
  {
    hide EntriesBytes, EncodeBstr, EncodeInt, ReservedBstr, Long;
    LabelBytes();
    var es := RsaPrivateEntries(RsaPrivate(Padded(s.d, width), s.p, s.q, s.dp, s.dq, s.qi));
    LongIs(Padded(s.d, width));
    assert es == [es[0], es[1], es[2]] + [es[3], es[4], es[5]];
    EntriesJoin([es[0], es[1], es[2]], [es[3], es[4], es[5]]);
    EntriesThree(es[0], es[1], es[2]);
    EntriesThree(es[3], es[4], es[5]);
  }

  lemma EccIs(key: StoredKey, publicOnly: bool)
    requires InInt32(key.alg) && MayEncode(key, publicOnly) && Encodable(key, publicOnly) && key.obj.EccKey?
    ensures InInt32(key.crv) && Exportable(key, publicOnly)
    ensures EntriesBytes(TypeEntries(Coded(key, publicOnly).crv, Coded(key, publicOnly).material)) == TypePart(key, publicOnly)
  {
    hide EntriesBytes, EncodeBstr, EncodeInt, Emits, PrivateThere, Optional, CurveSize, OnCurve;
    EmitsIs(key, publicOnly);
    LabelBytes();
    var p := key.obj.point.value;
    CurveIs(key.crv, |p.x|);
    var a := [KeyEntry(CRV, Number(key.crv)), KeyEntry(X, Octets(p.x)), KeyEntry(Y, Octets(p.y))];
    EntriesThree(a[0], a[1], a[2]);
    OptionalIs(a, PrivateThere(key, publicOnly), D, OrNone(key.obj.scalar));
  }

  lemma RsaTypeIs(key: StoredKey, publicOnly: bool)
    requires InInt32(key.alg) && InInt32(key.crv) && MayEncode(key, publicOnly) && Encodable(key, publicOnly)
    requires key.obj.RsaKey?
    ensures Exportable(key, publicOnly)
    ensures EntriesBytes(TypeEntries(Coded(key, publicOnly).crv, Coded(key, publicOnly).material)) == TypePart(key, publicOnly)
  {
    hide EntriesBytes, EncodeBstr, EncodeInt, Emits, PrivateThere, CurveSize, ReservedBstr, Long, Padded, RsaPart;
    EmitsIs(key, publicOnly);
    LabelBytes();
    var n, e := key.obj.n, key.obj.e;
    LongIs(n);
    var a := [KeyEntry(CRV, Reserved(n)), KeyEntry(X, Octets(e))];
    EntriesTwo(a[0], a[1]);
    if PrivateThere(key, publicOnly) {
      var s := key.obj.numbers.value;
      RsaIs(s, |n|);
      EntriesJoin(a, RsaPrivateEntries(RsaPrivate(Padded(s.d, |n|), s.p, s.q, s.dp, s.dq, s.qi)));
    } else {
      assert a + [] == a;
    }
  }

  lemma OtherIs(key: StoredKey, publicOnly: bool)
    requires InInt32(key.alg) && InInt32(key.crv) && MayEncode(key, publicOnly) && Encodable(key, publicOnly)
    requires !key.obj.RsaKey? && !key.obj.EccKey?
    ensures Exportable(key, publicOnly)
    ensures EntriesBytes(TypeEntries(Coded(key, publicOnly).crv, Coded(key, publicOnly).material)) == TypePart(key, publicOnly)
  {
    hide EntriesBytes, EncodeBstr, EncodeInt, Emits, PrivateThere, ReservedBstr, Long, Optional, CurveSize;
    EmitsIs(key, publicOnly);
    LabelBytes();
    match key.obj
    case MlDsaKey(pub) =>
      LongIs(pub);
      EntryAlone(KeyEntry(CRV, Reserved(pub)));
      OptionalIs([KeyEntry(CRV, Reserved(pub))], PrivateThere(key, publicOnly), X, OrNone(key.seed));
      SeedThere(key, publicOnly);
    case LmsKey(pub, _) => EntryAlone(KeyEntry(CRV, Octets(pub)));
    case EdwardsKey(pub, priv) =>
      CurveIs(key.crv, if key.crv == 6 then 32 else 57);
      var a := [KeyEntry(CRV, Number(key.crv)), KeyEntry(X, Octets(pub))];
      EntriesTwo(a[0], a[1]);
      OptionalIs(a, PrivateThere(key, publicOnly), D, OrNone(priv));
    case Secret(k) => EntryAlone(KeyEntry(CRV, Octets(k)));
  }

  lemma SeedThere(key: StoredKey, publicOnly: bool)
    ensures key.obj.MlDsaKey? && PrivateThere(key, publicOnly) ==> key.seed.Some?
  {
  }

  lemma TypeCountIs(key: StoredKey, publicOnly: bool, crv: u64)
    requires EncodeStatus(key, publicOnly).Success? && crv <= INT64_MAX
    ensures |TypeEntries(crv, ToWrite(key, publicOnly))| == TypeEntryCount(key, publicOnly)
  {
    hide PrivateThere, CurveSize, Padded, RsaPrivateEntries;
    EmitsIs(key, publicOnly);
    SeedThere(key, publicOnly);
  }

  lemma CountIs(key: StoredKey, publicOnly: bool)
    requires InInt32(key.alg) && MayEncode(key, publicOnly) && Encodable(key, publicOnly)
    ensures |KeyEntries(Coded(key, publicOnly))| == EntryCount(key, publicOnly)
    ensures KtyOf(Coded(key, publicOnly).material) == TypeNumber(key.obj)
  {
    hide CurveSize, CommonEntries, TypeEntries, EncodeStatus, MayEncode, ToWrite, TypeEntryCount, KtyOf, TypeNumber;
    Coding(key, publicOnly);
    TypeIs(key, publicOnly);
    TypeCountIs(key, publicOnly, Coded(key, publicOnly).crv);
    CommonIs(key, Coded(key, publicOnly));
  }

  lemma TypeIs(key: StoredKey, publicOnly: bool)
    requires EncodeStatus(key, publicOnly).Success?
    ensures KtyOf(ToWrite(key, publicOnly)) == TypeNumber(key.obj)
  {
    hide Emits, CurveSize, Padded;
  }

  lemma SmallMap(n: nat)
    requires n <= 11
    ensures EncodeHead(MAP, n) == [0xA0 + n]
  {
  }

  /** What is written of a key are exactly these bytes. */
  lemma KeyBytesAre(key: StoredKey, publicOnly: bool)
    requires InInt32(key.alg) && InInt32(key.crv) && MayEncode(key, publicOnly) && Encodable(key, publicOnly)
    ensures Exportable(key, publicOnly) && KeyBytes(Coded(key, publicOnly)) == KeyMap(key, publicOnly)
  {
    hide EntriesBytes, MayEncode, EncodeStatus, Sound, ExponentThere, Exportable, TypePart, CommonPart, CommonEntries, TypeEntries, EntryCount,
         EncodeHead, ToWrite, TypeNumber;
    var c := Coded(key, publicOnly);
    CountIs(key, publicOnly);
    SmallMap(EntryCount(key, publicOnly));
    CommonIs(key, c);
    EntriesJoin(CommonEntries(c), TypeEntries(c.crv, c.material));
    if key.obj.EccKey? {
      EccIs(key, publicOnly);
    } else if key.obj.RsaKey? {
      RsaTypeIs(key, publicOnly);
    } else {
      OtherIs(key, publicOnly);
    }
  }

  // ----- What is read -----

  /** The fields that a reader finds: type, algorithm, curve and identifier, and what stands under -1 when
      it is a byte string, and under -2 to -8. */
  function FieldsOf(key: StoredKey, publicOnly: bool): (p: Parts)
    requires Exportable(key, publicOnly)
  {
    var there := PrivateThere(key, publicOnly);
    var kid := if key.kid == [] then None else Some(key.kid);
    match key.obj
    case EccKey(point, scalar) =>
      Parts(KeyInfo(2, key.alg, key.crv, kid), None, Some(point.value.x), Some(point.value.y),
            if there then Some(scalar.value) else None, None, None, None, None, true)
    case RsaKey(n, e, numbers) =>
      if there then
        var s := numbers.value;
        Parts(KeyInfo(3, key.alg, 0, kid), Some(n), Some(e), Some(Zeros(|n| - |s.d|) + s.d), Some(s.p), Some(s.q), Some(s.dp),
              Some(s.dq), Some(s.qi), true)
      else Parts(KeyInfo(3, key.alg, 0, kid), Some(n), Some(e), None, None, None, None, None, None, true)
    case MlDsaKey(pub) =>
      Parts(KeyInfo(7, key.alg, 0, kid), Some(pub), if there then key.seed else None, None, None, None, None, None, None, true)
    case LmsKey(pub, _) => Parts(KeyInfo(5, key.alg, 0, kid), Some(pub), None, None, None, None, None, None, None, true)
    case EdwardsKey(pub, priv) =>
      Parts(KeyInfo(1, key.alg, key.crv, kid), None, Some(pub), None, if there then priv else None, None, None, None, None, true)
    case Secret(k) => Parts(KeyInfo(4, key.alg, 0, kid), Some(k), None, None, None, None, None, None, None, true)
  }

  lemma PartsAre(key: StoredKey, publicOnly: bool)
    requires InInt32(key.alg) && MayEncode(key, publicOnly) && Encodable(key, publicOnly)
    ensures Exportable(key, publicOnly) && PartsFor(Coded(key, publicOnly)) == FieldsOf(key, publicOnly)
  {
    hide Emits, PrivateThere, CurveSize;
    EmitsIs(key, publicOnly);
    match key.obj
    case EccKey(point, _) => CurveIs(key.crv, |point.value.x|);
    case EdwardsKey(_, _) => CurveIs(key.crv, if key.crv == 6 then 32 else 57);
    case _ =>
  }

  lemma Reserves(key: StoredKey, publicOnly: bool)
    requires InInt32(key.alg) && MayEncode(key, publicOnly) && Encodable(key, publicOnly)
    requires key.obj.RsaKey? ==> 24 <= |key.obj.n|
    ensures Reservable(Coded(key, publicOnly).material)
  {
    hide Emits, PrivateThere, CurveSize, OnCurve;
  }

  /** Entries that are read leave the rest to be read, after some labels. */
  lemma {:induction false} EntriesReach(es: seq<KeyEntry>, s: seq<byte>, i: nat, n: nat, seen: set<Label>, p: Parts)
    returns (after: set<Label>)
    requires AllTyped(es) && Fresh(es, seen) && i <= |s| && |es| <= n
    requires SameSlice(EntriesBytes(es), 0, s, i, |EntriesBytes(es)|)
    ensures DecodeEntries(s, i, n, seen, p)
         == DecodeEntries(s, i + |EntriesBytes(es)|, n - |es|, after, TakeAll(p, es))
    decreases |es|
  {
    hide EntriesBytes, EncodeInt, ValueBytes, SameSlice, AllTyped, Fresh, KeyLabel, DecodeEntry, Typed, Take;
    if es == [] {
      NoBytes();
      after := seen;
    } else {
      var all, l, v, r := EntriesBytes(es), EncodeInt(es[0].lbl), ValueBytes(es[0].value), EntriesBytes(es[1..]);
      EntriesCons(es);
      FreshTail(es, seen);
      ThreeParts(l, v, r);
      SameSliceBound(all, 0, s, i, |all|);
      Within(l, all, 0, s, i);
      Within(v, all, |l|, s, i);
      Within(r, all, |l| + |v|, s, i);
      KeyLabelRead(es[0].lbl, s, i);
      EntryRead(es[0], s, i + |l|, p);
      after := EntriesReach(es[1..], s, i + |l| + |v|, n - 1, seen + {IntLabel(es[0].lbl)}, Take(p, es[0]));
    }
  }

  /** A modulus of less than 24 bytes stands behind a head that is not the shortest. */
  lemma ShortModulus(n: Bytes, s: seq<byte>, j: nat, p: Parts)
    requires |n| < 24 && SameSlice(ReservedBstr(n), 0, s, j, |ReservedBstr(n)|)
    ensures DecodeEntry(s, j, -1, p).Err?
  {
    var b := ReservedBstr(n);
    SameSliceAt(b, 0, s, j, |b|, 0);
    SameSliceAt(b, 0, s, j, |b|, 1);
    assert s[j] == 0x58 && s[j + 1] == |n|;
    assert s[j + 1..j + 2] == [|n|];
    assert FromBE([|n|]) == |n| by {
      assert [|n|][..0] == [];
    }
    assert DecodeHead(s, j, false).Err?;
  }

  /** Where the modulus of a written key stands. */
  lemma ModulusStands(key: StoredKey, publicOnly: bool)
    requires InInt32(key.alg) && InInt32(key.crv) && MayEncode(key, publicOnly) && Encodable(key, publicOnly)
    requires key.obj.RsaKey?
    ensures var c := Coded(key, publicOnly);
      var s, h, x, v := KeyBytes(c), EncodeHead(MAP, |KeyEntries(c)|), EntriesBytes(CommonEntries(c)), ReservedBstr(key.obj.n);
      && |KeyEntries(c)| >= |CommonEntries(c)| + 1 && |h| <= |s|
      && SameSlice(h, 0, s, 0, |h|) && SameSlice(x, 0, s, |h|, |x|)
      && SameSlice(EncodeInt(-1), 0, s, |h| + |x|, |EncodeInt(-1)|)
      && SameSlice(v, 0, s, |h| + |x| + |EncodeInt(-1)|, |v|)
  {
    hide EntriesBytes, EncodeInt, ValueBytes, SameSlice, EncodeHead, CommonEntries, MayEncode, Padded, RsaPrivateEntries,
         CurveSize, Emits, ReservedBstr;
    var c := Coded(key, publicOnly);
    var es, s := KeyEntries(c), KeyBytes(c);
    var a, m, t := CommonEntries(c), KeyEntry(-1, Reserved(key.obj.n)), TypeEntries(c.crv, c.material)[1..];
    assert es == a + ([m] + t);
    EntriesJoin(a, [m] + t);
    EntriesJoin([m], t);
    EntryAlone(m);
    ReservedValue(m);
    var h, x, l, v, r := EncodeHead(MAP, |es|), EntriesBytes(a), EncodeInt(-1), ReservedBstr(key.obj.n), EntriesBytes(t);
    FourParts(h, x, l + v, r);
    assert s == h + x + (l + v) + r;
    ThreeParts(l, v, []);
    assert l + v == l + v + [];
    Within(l, l + v, 0, s, |h| + |x|);
    Within(v, l + v, |l|, s, |h| + |x|);
  }

  /** So no reader takes such a key. */
  lemma ShortModulusRefused(key: StoredKey, publicOnly: bool)
    requires InInt32(key.alg) && InInt32(key.crv) && MayEncode(key, publicOnly) && Encodable(key, publicOnly)
    requires key.obj.RsaKey? && |key.obj.n| < 24
    ensures KeyParts(KeyBytes(Coded(key, publicOnly))).Err?
  {
    hide EntriesBytes, EncodeInt, SameSlice, AllTyped, Fresh, KeyLabel, DecodeEntry, EncodeHead, CommonEntries, MayEncode,
         DecodeMap, TakeAll, ReservedBstr, Encodable, Coded, KeyEntries, KeyBytes, DecodeEntries;
    Coding(key, publicOnly);
    ModulusStands(key, publicOnly);
    var c := Coded(key, publicOnly);
    var n, s, a := |KeyEntries(c)|, KeyBytes(c), CommonEntries(c);
    var h, x := EncodeHead(MAP, n), EntriesBytes(a);
    var i := |h| + |x|;
    CommonTyped(c);
    if DecodeMap(s, 0, false).Ok? && DecodeMap(s, 0, false).value <= MAX_MAP_ITEMS {
      HeadRoundTrip(MAP, n, false, s, 0);
      MapHead(s, n);
      var after := EntriesReach(a, s, |h|, n, {}, NO_PARTS);
      KeyLabelRead(-1, s, i);
      ShortModulus(key.obj.n, s, i + |EncodeInt(-1)|, TakeAll(NO_PARTS, a));
      RefusedEntry(s, i, n - |a|, after, TakeAll(NO_PARTS, a));
    }
  }

  lemma RefusedEntry(s: seq<byte>, i: nat, n: nat, seen: set<Label>, p: Parts)
    requires n > 0 && KeyLabel(s, i).Ok? && DecodeEntry(s, KeyLabel(s, i).next, KeyLabel(s, i).value, p).Err?
    ensures DecodeEntries(s, i, n, seen, p).Err?
  {
    hide KeyLabel, DecodeEntry;
  }

  lemma ReservedValue(e: KeyEntry)
    requires e.value.Reserved?
    ensures ValueBytes(e.value) == ReservedBstr(e.value.r)
  {
  }

  lemma MapHead(s: seq<byte>, n: u64)
    requires DecodeHead(s, 0, false) == Ok(Item(MAP, n, []), HeadSize(n)) && DecodeMap(s, 0, false).Ok?
    ensures DecodeMap(s, 0, false) == Ok(n, HeadSize(n))
  {
    hide DecodeHead;
  }

  /** Whatever key is encoded, with whatever flags, the bytes are those of its map; and a reader takes them,
      and finds the fields of the object, each under its label, and the private part exactly when it may be
      written, if and only if it accepts that many entries and no modulus is shorter than 24 bytes. */
  lemma EncodedIsRead(key: StoredKey, publicOnly: bool, outSz: nat)
    requires InInt32(key.alg) && InInt32(key.crv) && Encodes(key, publicOnly, outSz)
    ensures var s := KeyBytes(Coded(key, publicOnly));
      && MayEncode(key, publicOnly) && Exportable(key, publicOnly)
      && |s| <= outSz && s == KeyMap(key, publicOnly)
      && (EntryCount(key, publicOnly) <= MAX_MAP_ITEMS && (key.obj.RsaKey? ==> 24 <= |key.obj.n|)
          <==> KeyParts(s) == Ok(FieldsOf(key, publicOnly), |s|))
      && (KeyParts(s).Ok? ==> KeyParts(s) == Ok(FieldsOf(key, publicOnly), |s|))
  {
    hide MayEncode, Encodable, Exportable, KeyMap, FieldsOf, PartsFor, KeyBytes, KeyParts, RoomFor, EntryCount, Reservable,
         KeyEntries;
    EncodesExactly(key, publicOnly, outSz);
    Coding(key, publicOnly);
    KeyBytesAre(key, publicOnly);
    CountIs(key, publicOnly);
    PartsAre(key, publicOnly);
    if key.obj.RsaKey? && |key.obj.n| < 24 {
      ShortModulusRefused(key, publicOnly);
    } else if EntryCount(key, publicOnly) > MAX_MAP_ITEMS {
      TooMany(Coded(key, publicOnly));
    } else {
      Reserves(key, publicOnly);
      KeyPartsRoundTrip(Coded(key, publicOnly));
    }
  }

  lemma TooMany(c: CoseKey)
    requires Writable(c) && |KeyEntries(c)| > MAX_MAP_ITEMS
    ensures KeyParts(KeyBytes(c)).Err?
  {
    hide EntriesBytes, EncodeHead, DecodeEntries, KeyEntries, DecodeHead;
    var s, h := KeyBytes(c), EncodeHead(MAP, |KeyEntries(c)|);
    assert s[0..|h|] == h == h[0..|h|];
    HeadRoundTrip(MAP, |KeyEntries(c)|, false, s, 0);
  }

  lemma Coding(key: StoredKey, publicOnly: bool)
    requires Encodable(key, publicOnly)
    ensures EncodeStatus(key, publicOnly).Success?
  {
  }

  /** The room that encoding takes: that of the map, and for a private RSA key, if that is more, what stands
      before its exponent, a head of three bytes, the exponent with the two primes that are exported at once
      with it, and eight bytes for the public exponent. */
  lemma RoomExactly(key: StoredKey, publicOnly: bool)
    requires InInt32(key.alg) && InInt32(key.crv) && MayEncode(key, publicOnly) && Encodable(key, publicOnly)
    ensures Exportable(key, publicOnly)
    ensures RoomFor(Coded(key, publicOnly))
         == var all := |KeyMap(key, publicOnly)|;
            if key.obj.RsaKey? && PrivateThere(key, publicOnly) then
              var before := 1 + |CommonPart(key, 3)| + |[0x20] + Long(key.obj.n) + [0x21] + EncodeBstr(key.obj.e)|;
              var work := before + 1 + 3 + 3 * |key.obj.n| + 8;
              if work > all then work else all
            else all
  {
    hide EntriesBytes, EncodeBstr, EncodeInt, KeyBytes, KeyMap, CommonPart, CommonEntries, MayEncode, Padded, Long,
         ReservedBstr, CurveSize, Emits, PrivateThere, RsaPrivateEntries;
    EmitsIs(key, publicOnly);
    KeyBytesAre(key, publicOnly);
    if key.obj.RsaKey? && PrivateThere(key, publicOnly) {
      var c := Coded(key, publicOnly);
      var a := [KeyEntry(CRV, Reserved(key.obj.n)), KeyEntry(X, Octets(key.obj.e))];
      CommonIs(key, c);
      LabelBytes();
      LongIs(key.obj.n);
      EntriesTwo(a[0], a[1]);
      EntriesJoin(CommonEntries(c), a);
      assert KeyEntries(c)[..|CommonEntries(c)| + 2] == CommonEntries(c) + a;
    }
  }
}
