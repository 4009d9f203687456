/**
 Writing COSE_Key maps: what each type of key is written as, how long that is, and that it is
 read back.  Large numbers are exported straight behind a reserved head of three bytes.
 */
module KeyWriting {
  import opened Wire
  import opened Cbor
  import opened CborRoundTrip
  import opened Header
  import opened CountersignLemmas
  import opened CountersignLists
  import opened CountersignAdd
  import opened Sizes
  import opened Keys

  // ----- Keys -----

  datatype RsaPrivate = RsaPrivate(d: Bytes, p: Bytes, q: Bytes, dp: Bytes, dq: Bytes, qi: Bytes)

  /** What wolfCrypt exports of a key; private parts are there when they are to be written. */
  datatype Material =
    | Ec2(x: Bytes, y: Bytes, scalar: Option<Bytes>)
    | Rsa(n: Bytes, e: Bytes, private: Option<RsaPrivate>)
    | Akp(pub: Bytes, seed: Option<Bytes>)
    | HssLms(pub: Bytes)
    | Okp(pub: Bytes, priv: Option<Bytes>)
    | Symmetric(k: Bytes)

  datatype CoseKey = CoseKey(alg: int, crv: u64, kid: Bytes, material: Material)

  function KtyOf(m: Material): (kty: int)
    ensures 1 <= kty <= 7
  {
    match m
    case Ec2(_, _, _) => KTY_EC2
    case Rsa(_, _, _) => KTY_RSA
    case Akp(_, _) => KTY_AKP
    case HssLms(_) => KTY_HSS_LMS
    case Okp(_, _) => KTY_OKP
    case Symmetric(_) => KTY_SYMMETRIC
  }

  // ----- What is written -----

  /** A value to write: a number, a byte string, or a byte string behind a reserved head. */
  datatype KeyValue = Number(n: i64) | Octets(b: Bytes) | Reserved(r: Bytes)

  /** An entry to write. */
  datatype KeyEntry = KeyEntry(lbl: i64, value: KeyValue)

  /** What the reserved head becomes: a length of one byte, or of two. */
  function ReservedBstr(b: Bytes): (s: seq<byte>) {
    if |b| < 256 then [0x58, |b|] + b else [0x59, |b| / 0x100 % 0x100, |b| % 0x100] + b
  }

  function ValueBytes(v: KeyValue): (s: seq<byte>) {
    match v
    case Number(n) => EncodeInt(n)
    case Octets(b) => EncodeBstr(b)
    case Reserved(b) => ReservedBstr(b)
  }

  function EntriesBytes(es: seq<KeyEntry>): (s: seq<byte>) {
    if es == [] then [] else EncodeInt(es[0].lbl) + ValueBytes(es[0].value) + EntriesBytes(es[1..])
  }

  function OneIf(c: bool, e: KeyEntry): (es: seq<KeyEntry>) {
    if c then [e] else []
  }

  /** Key type, key identifier and algorithm. */
  function CommonEntries(key: CoseKey): (es: seq<KeyEntry>)
    requires InInt32(key.alg)
    ensures |es| <= 3
  {
    [KeyEntry(KTY, Number(KtyOf(key.material)))] + OneIf(key.kid != [], KeyEntry(KEY_KID, Octets(key.kid)))
    + OneIf(key.alg != 0, KeyEntry(KEY_ALG, Number(key.alg)))
  }

  function RsaPrivateEntries(p: RsaPrivate): (es: seq<KeyEntry>)
    ensures |es| == 6
  {
    [KeyEntry(Y, Reserved(p.d)), KeyEntry(D, Octets(p.p)), KeyEntry(RSA_Q, Octets(p.q)), KeyEntry(RSA_DP, Octets(p.dp)),
     KeyEntry(RSA_DQ, Octets(p.dq)), KeyEntry(RSA_QINV, Octets(p.qi))]
  }

  /** The entries of a key's type. */
  function TypeEntries(crv: u64, m: Material): (es: seq<KeyEntry>)
    requires crv <= INT64_MAX
    ensures |es| <= 8
  {
    match m
    case Ec2(x, y, d) =>
      [KeyEntry(CRV, Number(crv)), KeyEntry(X, Octets(x)), KeyEntry(Y, Octets(y))]
      + (if d.Some? then [KeyEntry(D, Octets(d.value))] else [])
    case Rsa(n, e, p) =>
      [KeyEntry(CRV, Reserved(n)), KeyEntry(X, Octets(e))] + (if p.Some? then RsaPrivateEntries(p.value) else [])
    case Akp(pub, seed) =>
      [KeyEntry(CRV, Reserved(pub))] + (if seed.Some? then [KeyEntry(X, Octets(seed.value))] else [])
    case HssLms(pub) => [KeyEntry(CRV, Octets(pub))]
    case Okp(pub, priv) =>
      [KeyEntry(CRV, Number(crv)), KeyEntry(X, Octets(pub))]
      + (if priv.Some? then [KeyEntry(D, Octets(priv.value))] else [])
    case Symmetric(k) => [KeyEntry(CRV, Octets(k))]
  }

  predicate Writable(key: CoseKey) {
    InInt32(key.alg) && key.crv <= INT32_MAX
  }

  function KeyEntries(key: CoseKey): (es: seq<KeyEntry>)
    requires Writable(key)
    ensures |es| <= 11
  {
    CommonEntries(key) + TypeEntries(key.crv, key.material)
  }

  function KeyBytes(key: CoseKey): (s: seq<byte>)
    requires Writable(key)
  {
    EncodeHead(MAP, |KeyEntries(key)|) + EntriesBytes(KeyEntries(key))
  }

  // ----- The reserved head -----

  /** The reserved head is the shortest one, and the byte string is read back, exactly when there
      are 24 bytes at least. */
  lemma ReservedIffPreferred(b: Bytes)
    requires |b| <= 65535
    ensures |b| >= 24 <==> ReservedBstr(b) == EncodeBstr(b)
    ensures |b| >= 24 <==> DecodeBstr(ReservedBstr(b), 0, false).Ok?
  {
    ReservedHead(b);
    if |b| >= 24 {
      var s := EncodeBstr(b);
      assert SameSlice(s, 0, s, 0, |s|);
      hide EncodeString, DecodeHead;
      StringRoundTrip(BSTR, b, false, s, 0);
    } else {
      var s := ReservedBstr(b);
      assert s[0] == 0x58 && s[1] == |b|;
      assert s[1..2] == [s[1]];
      assert FromBE([s[1]]) == |b| by {
        assert [s[1]][..0] == [];
      }
      assert EncodeBstr(b)[0] == 2 * 32 + |b|;
    }
  }

  lemma ReservedHead(b: Bytes)
    requires |b| <= 65535
    ensures |b| >= 24 ==> ReservedBstr(b) == EncodeBstr(b)
  {
    var n := |b|;
    if 24 <= n < 256 {
      assert ToBE(n, 1) == [n] by {
        assert ToBE(n / 256, 0) == [];
      }
      assert EncodeHead(BSTR, n) == [0x58, n];
    } else if n >= 256 {
      TwoBytes(n);
      assert EncodeHead(BSTR, n) == [0x59, n / 0x100 % 0x100, n % 0x100];
    }
  }

  lemma TwoBytes(n: nat)
    requires n <= 0xFFFF
    ensures ToBE(n, 2) == [n / 0x100 % 0x100, n % 0x100]
  {
    assert ToBE(n / 0x100, 1) == [n / 0x100 % 0x100];
  }

  // ----- Sizes -----

  /** What a size query asks wolfCrypt for: the width of a coordinate, of a modulus and an
      exponent, of a public key, and whether the private half will be written. */
  datatype Measure =
    | Ec2Size(coordinate: nat, emits: bool)
    | RsaSize(modulus: nat, exponent: nat, emits: bool)
    | AkpSize(pub: nat, emits: bool)
    | LmsSize(pub: nat)
    | OkpSize(width: nat, emits: bool)
    | SymmetricSize(len: nat)

  /** wolfCrypt's answers agree with what it exports.  The private exponent is padded to the width
      of the modulus when it is written. */
  predicate Agrees(m: Material, z: Measure) {
    match m
    case Ec2(x, y, d) => z.Ec2Size? && |x| == |y| == z.coordinate && z.emits == d.Some? && (d.Some? ==> |d.value| == |x|)
    case Rsa(n, e, p) =>
      && z.RsaSize? && |n| == z.modulus && |e| == z.exponent && z.emits == p.Some?
      && (p.Some? ==> |p.value.d| == |n|
                      && |p.value.p| == |p.value.q| == |p.value.dp| == |p.value.dq| == |p.value.qi| == (|n| + 1) / 2)
    case Akp(pub, seed) => z.AkpSize? && |pub| == z.pub && z.emits == seed.Some? && (seed.Some? ==> |seed.value| == MLDSA_SEED_SZ)
    case HssLms(pub) => z.LmsSize? && |pub| == z.pub
    case Okp(pub, priv) => z.OkpSize? && |pub| == z.width && z.emits == priv.Some? && (priv.Some? ==> |priv.value| == |pub|)
    case Symmetric(k) => z.SymmetricSize? && |k| == z.len
  }

  /** The number of entries of a key's type. */
  function TypeCount(z: Measure): (n: nat) {
    match z
    case Ec2Size(_, emits) => if emits then 4 else 3
    case RsaSize(_, _, emits) => if emits then 8 else 2
    case AkpSize(_, emits) => if emits then 2 else 1
    case LmsSize(_) => 1
    case OkpSize(_, emits) => if emits then 3 else 2
    case SymmetricSize(_) => 1
  }

  function IntSize(n: i64): (k: nat) {
    if n >= 0 then HeadSize(n) else HeadSize(-(n + 1))
  }

  /** `wolfCose_ReservedBstrSize`. */
  function ReservedSize(len: nat): (n: nat) {
    (if len < 256 then 2 else 3) + len
  }

  /** `wolfCose_KeyCommonSize`, for `entries` entries beside the optional ones. */
  function CommonSize(key: CoseKey, kty: nat, entries: nat): (n: nat)
    requires Writable(key) && kty <= 7 && entries <= 9
  {
    HeadSize(entries + (if key.kid != [] then 1 else 0) + (if key.alg != 0 then 1 else 0))
    + 1 + HeadSize(kty)
    + (if key.kid != [] then 1 + StringSize(|key.kid|) else 0)
    + (if key.alg != 0 then 1 + IntSize(key.alg) else 0)
  }

  predicate Measurable(z: Measure) {
    match z
    case Ec2Size(n, _) => n <= SIZE_MAX
    case RsaSize(n, e, _) => n <= SIZE_MAX && e <= SIZE_MAX
    case AkpSize(n, _) => n <= SIZE_MAX
    case LmsSize(n) => n <= SIZE_MAX
    case OkpSize(n, _) => n <= SIZE_MAX
    case SymmetricSize(n) => n <= SIZE_MAX
  }

  function TypeSize(crv: u64, z: Measure): (n: nat)
    requires Measurable(z)
  {
    match z
    case Ec2Size(c, emits) => 1 + HeadSize(crv) + (if emits then 3 else 2) * (1 + StringSize(c))
    case RsaSize(m, e, emits) =>
      1 + ReservedSize(m) + 1 + StringSize(e)
      + (if emits then 1 + ReservedSize(m) + 5 * (1 + StringSize((m + 1) / 2)) else 0)
    case AkpSize(n, emits) => 1 + ReservedSize(n) + (if emits then 1 + StringSize(MLDSA_SEED_SZ) else 0)
    case LmsSize(n) => 1 + StringSize(n)
    case OkpSize(n, emits) => 1 + HeadSize(crv) + (if emits then 2 else 1) * (1 + StringSize(n))
    case SymmetricSize(n) => 1 + StringSize(n)
  }

  /** `wc_CoseKey_EncodeSize_ex`, from what can be measured without exporting the key. */
  function PredictedSize(key: CoseKey, z: Measure): (n: nat)
    requires Writable(key) && Measurable(z)
  {
    CommonSize(key, KtyOf(key.material), 1 + TypeCount(z)) + TypeSize(key.crv, z)
  }

  /** What an entry takes. */
  function EntrySize(e: KeyEntry): (n: nat) {
    |EncodeInt(e.lbl)| + |ValueBytes(e.value)|
  }

  function TotalSize(es: seq<KeyEntry>): (n: nat) {
    if es == [] then 0 else EntrySize(es[0]) + TotalSize(es[1..])
  }

  lemma {:induction false} TotalIsLength(es: seq<KeyEntry>)
    ensures |EntriesBytes(es)| == TotalSize(es)
  {
    hide EncodeInt, ValueBytes;
    if es != [] {
      TotalIsLength(es[1..]);
    }
  }

  lemma {:induction false} TotalJoin(a: seq<KeyEntry>, b: seq<KeyEntry>)
    ensures TotalSize(a + b) == TotalSize(a) + TotalSize(b)
  {
    hide EntrySize;
    if a == [] {
      assert a + b == b;
    } else {
      TotalJoin(a[1..], b);
      assert (a + b)[0] == a[0] && (a + b)[1..] == a[1..] + b;
    }
  }

  lemma One(e: KeyEntry)
    ensures TotalSize([e]) == EntrySize(e)
  {
    hide EntrySize;
    assert [e][1..] == [];
  }

  /** The size of an entry by the kind of its value; all labels that keys use take one byte. */
  lemma EntrySizes(lbl: i64)
    requires -8 <= lbl <= 4
    ensures forall n: i64 :: EntrySize(KeyEntry(lbl, Number(n))) == 1 + IntSize(n)
    ensures forall b: Bytes :: EntrySize(KeyEntry(lbl, Octets(b))) == 1 + StringSize(|b|)
    ensures forall b: Bytes :: EntrySize(KeyEntry(lbl, Reserved(b))) == 1 + ReservedSize(|b|)
  {
    hide HeadBytes;
  }

  lemma CommonExact(key: CoseKey)
    requires Writable(key)
    ensures TotalSize(CommonEntries(key)) == 1 + HeadSize(KtyOf(key.material))
      + (if key.kid != [] then 1 + StringSize(|key.kid|) else 0) + (if key.alg != 0 then 1 + IntSize(key.alg) else 0)
    ensures |CommonEntries(key)| == 1 + (if key.kid != [] then 1 else 0) + (if key.alg != 0 then 1 else 0)
  {
    hide EntrySize, TotalSize, StringSize, HeadSize, IntSize;
    var a := [KeyEntry(KTY, Number(KtyOf(key.material)))];
    var b := OneIf(key.kid != [], KeyEntry(KEY_KID, Octets(key.kid)));
    var c := OneIf(key.alg != 0, KeyEntry(KEY_ALG, Number(key.alg)));
    TotalJoin(a + b, c);
    TotalJoin(a, b);
    One(a[0]);
    One(KeyEntry(KEY_KID, Octets(key.kid)));
    One(KeyEntry(KEY_ALG, Number(key.alg)));
    NoTotal();
    EntrySizes(KTY);
    EntrySizes(KEY_KID);
    EntrySizes(KEY_ALG);
    NumberSize(KtyOf(key.material));
  }

  lemma NumberSize(n: nat)
    requires n <= INT64_MAX
    ensures IntSize(n) == HeadSize(n)
  {
  }

  lemma NoTotal()
    ensures TotalSize([]) == 0
  {
  }

  lemma TotalCons(es: seq<KeyEntry>)
    requires es != []
    ensures TotalSize(es) == EntrySize(es[0]) + TotalSize(es[1..])
  {
    hide EntrySize;
  }

  lemma RsaPrivateExact(p: RsaPrivate, n: nat)
    requires |p.d| == n && |p.p| == |p.q| == |p.dp| == |p.dq| == |p.qi| == (n + 1) / 2
    ensures TotalSize(RsaPrivateEntries(p)) == 1 + ReservedSize(n) + 5 * (1 + StringSize((n + 1) / 2))
  {
    hide EntrySize, TotalSize, StringSize, ReservedSize;
    var es := RsaPrivateEntries(p);
    var a, b := es[..3], es[3..];
    assert es == a + b && a == [es[0], es[1], es[2]] && b == [es[3], es[4], es[5]];
    TotalJoin(a, b);
    ThreeTotal(es[0], es[1], es[2]);
    ThreeTotal(es[3], es[4], es[5]);
    EntrySizes(Y);
    EntrySizes(D);
    EntrySizes(RSA_Q);
    EntrySizes(RSA_DP);
    EntrySizes(RSA_DQ);
    EntrySizes(RSA_QINV);
  }

  lemma ThreeTotal(a: KeyEntry, b: KeyEntry, c: KeyEntry)
    ensures TotalSize([a, b, c]) == EntrySize(a) + EntrySize(b) + EntrySize(c)
  {
    hide EntrySize, TotalSize;
    TotalCons([a, b, c]);
    assert [a, b, c][1..] == [b, c];
    TwoTotal(b, c);
  }

  lemma TwoTotal(a: KeyEntry, b: KeyEntry)
    ensures TotalSize([a, b]) == EntrySize(a) + EntrySize(b)
  {
    hide EntrySize, TotalSize;
    TotalCons([a, b]);
    assert [a, b][1..] == [b];
    One(b);
  }

  lemma TypeExact(crv: u64, m: Material, z: Measure)
    requires crv <= INT64_MAX && Measurable(z) && Agrees(m, z)
    ensures TotalSize(TypeEntries(crv, m)) == TypeSize(crv, z) && |TypeEntries(crv, m)| == TypeCount(z)
  {
    hide EntrySize, TotalSize, StringSize, ReservedSize, HeadSize, IntSize;
    EntrySizes(CRV);
    EntrySizes(X);
    EntrySizes(Y);
    EntrySizes(D);
    NoTotal();
    NumberSize(crv);
    match m
    case Ec2(x, y, d) =>
      var a := [KeyEntry(CRV, Number(crv)), KeyEntry(X, Octets(x)), KeyEntry(Y, Octets(y))];
      ThreeTotal(a[0], a[1], a[2]);
      if d.Some? {
        TotalJoin(a, [KeyEntry(D, Octets(d.value))]);
        One(KeyEntry(D, Octets(d.value)));
      } else {
        TotalJoin(a, []);
      }
    case Rsa(n, e, p) =>
      var a := [KeyEntry(CRV, Reserved(n)), KeyEntry(X, Octets(e))];
      TwoTotal(a[0], a[1]);
      if p.Some? {
        TotalJoin(a, RsaPrivateEntries(p.value));
        RsaPrivateExact(p.value, |n|);
      } else {
        TotalJoin(a, []);
      }
    case Akp(pub, seed) =>
      var a := [KeyEntry(CRV, Reserved(pub))];
      One(a[0]);
      if seed.Some? {
        TotalJoin(a, [KeyEntry(X, Octets(seed.value))]);
        One(KeyEntry(X, Octets(seed.value)));
      } else {
        TotalJoin(a, []);
      }
    case HssLms(pub) => One(KeyEntry(CRV, Octets(pub)));
    case Okp(pub, priv) =>
      var a := [KeyEntry(CRV, Number(crv)), KeyEntry(X, Octets(pub))];
      TwoTotal(a[0], a[1]);
      if priv.Some? {
        TotalJoin(a, [KeyEntry(D, Octets(priv.value))]);
        One(KeyEntry(D, Octets(priv.value)));
      } else {
        TotalJoin(a, []);
      }
    case Symmetric(k) => One(KeyEntry(CRV, Octets(k)));
  }

  /** For every type of key: the size that is predicted is the length of what is written. */
  lemma SizeIsExact(key: CoseKey, z: Measure)
    requires Writable(key) && Measurable(z) && Agrees(key.material, z)
    ensures |KeyBytes(key)| == PredictedSize(key, z)
  {
    hide EntriesBytes, TotalSize, CommonEntries, TypeEntries, EncodeHead, TypeSize, TypeCount, HeadSize, StringSize, IntSize,
         Agrees;
    CommonExact(key);
    TypeExact(key.crv, key.material, z);
    TotalJoin(CommonEntries(key), TypeEntries(key.crv, key.material));
    TotalIsLength(KeyEntries(key));
  }

  // ----- Reading back -----

  /** The bytes that a reader gets for a value. */
  function Data(v: KeyValue): (b: seq<byte>) {
    match v { case Number(_) => [] case Octets(b) => b case Reserved(b) => b }
  }

  /** What the decoder makes of an entry. */
  function Take(p: Parts, e: KeyEntry): (r: Parts) {
    var b := Some(Data(e.value));
    if e.lbl == KTY && e.value.Number? then p.(info := p.info.(kty := e.value.n))
    else if e.lbl == KEY_KID then p.(info := p.info.(kid := b))
    else if e.lbl == KEY_ALG && e.value.Number? then p.(info := p.info.(alg := e.value.n))
    else if e.lbl == CRV then if e.value.Number? then p.(info := p.info.(crv := e.value.n)) else p.(n := b)
    else if e.lbl == X then p.(x := b)
    else if e.lbl == Y then p.(y := b)
    else if e.lbl == D then p.(d := b)
    else if e.lbl == RSA_Q then p.(q := b)
    else if e.lbl == RSA_DP then p.(dp := b)
    else if e.lbl == RSA_DQ then p.(dq := b)
    else if e.lbl == RSA_QINV then p.(qi := b)
    else p
  }

  function TakeAll(p: Parts, es: seq<KeyEntry>): (r: Parts)
    decreases |es|
  {
    if es == [] then p else TakeAll(Take(p, es[0]), es[1..])
  }

  /** The value has the type that its label asks for, and a reserved head fits it. */
  predicate Typed(e: KeyEntry) {
    && (e.value.Reserved? ==> 24 <= |e.value.r| <= 65535)
    && match e.lbl
       case 1 => e.value.Number? && 0 <= e.value.n <= INT32_MAX
       case 2 => e.value.Octets?
       case 3 => e.value.Number? && InInt32(e.value.n)
       case -1 => e.value.Number? ==> InInt32(e.value.n)
       case _ => -8 <= e.lbl <= -2 && !e.value.Number?
  }

  lemma ValueIs(v: KeyValue)
    requires v.Reserved? ==> 24 <= |v.r| <= 65535
    ensures ValueBytes(v) == if v.Number? then EncodeInt(v.n) else EncodeBstr(Data(v))
    ensures |ValueBytes(v)| >= 1
  {
    hide EncodeInt, EncodeBstr;
    if v.Reserved? {
      ReservedHead(v.r);
    }
  }

  lemma FirstByte(s: seq<byte>, j: nat)
    requires DecodeHead(s, j, false).Ok?
    ensures PeekType(s, j) == DecodeHead(s, j, false).value.major
  {
  }

  lemma EntryRead(e: KeyEntry, s: seq<byte>, j: nat, p: Parts)
    requires Typed(e) && SameSlice(ValueBytes(e.value), 0, s, j, |ValueBytes(e.value)|)
    ensures DecodeEntry(s, j, e.lbl, p) == Ok(Take(p, e), j + |ValueBytes(e.value)|)
  {
    hide ValueBytes, SameSlice, DecodeHead, EncodeString, EncodeInt, Skip;
    ValueIs(e.value);
    if e.value.Number? {
      IntRoundTrip(e.value.n, false, s, j);
      FirstByte(s, j);
    } else {
      BstrRead(Data(e.value), s, j);
      FirstByte(s, j);
    }
  }

  lemma KeyLabelRead(lbl: i64, s: seq<byte>, i: nat)
    requires SameSlice(EncodeInt(lbl), 0, s, i, |EncodeInt(lbl)|)
    ensures KeyLabel(s, i) == Ok(lbl, i + |EncodeInt(lbl)|)
  {
    hide DecodeHead, EncodeInt, SameSlice;
    IntRoundTrip(lbl, false, s, i);
    FirstByte(s, i);
  }

  predicate AllTyped(es: seq<KeyEntry>) {
    forall k :: 0 <= k < |es| ==> Typed(es[k])
  }

  /** No label is repeated, nor among those that were seen. */
  predicate Fresh(es: seq<KeyEntry>, seen: set<Label>) {
    && (forall k :: 0 <= k < |es| ==> IntLabel(es[k].lbl) !in seen)
    && forall a, b :: 0 <= a < b < |es| ==> es[a].lbl != es[b].lbl
  }

  lemma EntriesCons(es: seq<KeyEntry>)
    requires es != []
    ensures EntriesBytes(es) == EncodeInt(es[0].lbl) + ValueBytes(es[0].value) + EntriesBytes(es[1..])
  {
    hide EncodeInt, ValueBytes;
  }

  lemma NoBytes()
    ensures EntriesBytes([]) == []
  {
  }

  lemma FreshTail(es: seq<KeyEntry>, seen: set<Label>)
    requires es != [] && Fresh(es, seen) && AllTyped(es)
    ensures IntLabel(es[0].lbl) !in seen && Fresh(es[1..], seen + {IntLabel(es[0].lbl)})
    ensures Typed(es[0]) && AllTyped(es[1..])
  {
    hide Typed;
    forall k | 0 <= k < |es[1..]|
      ensures IntLabel(es[1..][k].lbl) !in seen + {IntLabel(es[0].lbl)}
    {
      assert es[1..][k] == es[k + 1];
    }
    assert forall a :: 0 <= a < |es[1..]| ==> es[1..][a] == es[a + 1];
  }

  /** Written entries are read back. */
  lemma {:induction false} EntriesParse(es: seq<KeyEntry>, s: seq<byte>, i: nat, seen: set<Label>, p: Parts)
    requires AllTyped(es) && Fresh(es, seen) && i <= |s|
    requires SameSlice(EntriesBytes(es), 0, s, i, |EntriesBytes(es)|)
    ensures DecodeEntries(s, i, |es|, seen, p) == Ok(TakeAll(p, es), i + |EntriesBytes(es)|)
    ensures |EntriesBytes(es)| >= 2 * |es|
    decreases |es|
  {
    hide EntriesBytes, EncodeInt, ValueBytes, SameSlice, AllTyped, Fresh, KeyLabel, DecodeEntry, Typed, Take;
    if es == [] {
      NoBytes();
    } else {
      var all, l, v, r := EntriesBytes(es), EncodeInt(es[0].lbl), ValueBytes(es[0].value), EntriesBytes(es[1..]);
      EntriesCons(es);
      FreshTail(es, seen);
      ThreeParts(l, v, r);
      SameSliceBound(all, 0, s, i, |all|);
      Within(l, all, 0, s, i);
      Within(v, all, |l|, s, i);
      Within(r, all, |l| + |v|, s, i);
      KeyLabelRead(es[0].lbl, s, i);
      EntryRead(es[0], s, i + |l|, p);
      TypedLength(es[0]);
      EntriesParse(es[1..], s, i + |l| + |v|, seen + {IntLabel(es[0].lbl)}, Take(p, es[0]));
    }
  }

  lemma TypedLength(e: KeyEntry)
    requires Typed(e)
    ensures |ValueBytes(e.value)| >= 1
  {
    ValueIs(e.value);
  }

  lemma {:induction false} EntriesJoin(a: seq<KeyEntry>, b: seq<KeyEntry>)
    ensures EntriesBytes(a + b) == EntriesBytes(a) + EntriesBytes(b)
  {
    hide EncodeInt, ValueBytes, EntriesBytes;
    if a == [] {
      NoBytes();
      assert a + b == b;
    } else {
      EntriesJoin(a[1..], b);
      EntriesCons(a);
      EntriesCons(a + b);
      assert (a + b)[0] == a[0] && (a + b)[1..] == a[1..] + b;
    }
  }

  lemma {:induction false} TakeJoin(p: Parts, a: seq<KeyEntry>, b: seq<KeyEntry>)
    ensures TakeAll(p, a + b) == TakeAll(TakeAll(p, a), b)
    decreases |a|
  {
    hide Take;
    if a == [] {
      assert a + b == b;
    } else {
      TakeJoin(Take(p, a[0]), a[1..], b);
      assert (a + b)[0] == a[0] && (a + b)[1..] == a[1..] + b;
    }
  }

  lemma TakeCons(p: Parts, es: seq<KeyEntry>)
    requires es != []
    ensures TakeAll(p, es) == TakeAll(Take(p, es[0]), es[1..])
  {
    hide Take;
  }

  lemma TakeNone(p: Parts)
    ensures TakeAll(p, []) == p
  {
  }

  lemma TakeOne(p: Parts, a: KeyEntry)
    ensures TakeAll(p, [a]) == Take(p, a)
  {
    hide Take, TakeAll;
    TakeCons(p, [a]);
    assert [a][1..] == [];
    TakeNone(Take(p, a));
  }

  lemma TakeTwo(p: Parts, a: KeyEntry, b: KeyEntry)
    ensures TakeAll(p, [a, b]) == Take(Take(p, a), b)
  {
    hide Take, TakeAll;
    TakeCons(p, [a, b]);
    assert [a, b][1..] == [b];
    TakeOne(Take(p, a), b);
  }

  lemma TakeThree(p: Parts, a: KeyEntry, b: KeyEntry, c: KeyEntry)
    ensures TakeAll(p, [a, b, c]) == Take(Take(Take(p, a), b), c)
  {
    hide Take, TakeAll;
    TakeCons(p, [a, b, c]);
    assert [a, b, c][1..] == [b, c];
    TakeTwo(Take(p, a), b, c);
  }

  /** What a reader gets of a key. */
  function PartsFor(key: CoseKey): (p: Parts) {
    var info := KeyInfo(KtyOf(key.material), key.alg, if key.material.Ec2? || key.material.Okp? then key.crv else 0,
                     if key.kid == [] then None else Some(key.kid));
    match key.material
    case Ec2(x, y, d) => NO_PARTS.(info := info, x := Some(x), y := Some(y), d := d)
    case Rsa(n, e, None) => NO_PARTS.(info := info, n := Some(n), x := Some(e))
    case Rsa(n, e, Some(s)) =>
      Parts(info, Some(n), Some(e), Some(s.d), Some(s.p), Some(s.q), Some(s.dp), Some(s.dq), Some(s.qi), true)
    case Akp(pub, seed) => NO_PARTS.(info := info, n := Some(pub), x := seed)
    case HssLms(pub) => NO_PARTS.(info := info, n := Some(pub))
    case Okp(pub, priv) => NO_PARTS.(info := info, x := Some(pub), d := priv)
    case Symmetric(k) => NO_PARTS.(info := info, n := Some(k))
  }

  /** The large numbers are wide enough for their reserved heads, and not too wide. */
  predicate Reservable(m: Material) {
    match m
    case Rsa(n, _, s) => 24 <= |n| <= 65535 && (s.Some? ==> 24 <= |s.value.d| <= 65535)
    case Akp(pub, _) => 24 <= |pub| <= 65535
    case _ => true
  }

  lemma TakeCommon(key: CoseKey)
    requires Writable(key)
    ensures TakeAll(NO_PARTS, CommonEntries(key))
         == NO_PARTS.(info := KeyInfo(KtyOf(key.material), key.alg, 0, if key.kid == [] then None else Some(key.kid)))
  {
    hide TakeAll;
    var a := [KeyEntry(KTY, Number(KtyOf(key.material)))];
    var b := OneIf(key.kid != [], KeyEntry(KEY_KID, Octets(key.kid)));
    var c := OneIf(key.alg != 0, KeyEntry(KEY_ALG, Number(key.alg)));
    TakeJoin(NO_PARTS, a + b, c);
    TakeJoin(NO_PARTS, a, b);
    TakeOne(NO_PARTS, a[0]);
    var p := Take(NO_PARTS, a[0]);
    TakeOne(p, KeyEntry(KEY_KID, Octets(key.kid)));
    TakeNone(p);
    var q := TakeAll(p, b);
    TakeOne(q, KeyEntry(KEY_ALG, Number(key.alg)));
    TakeNone(q);
  }

  lemma TakeType(key: CoseKey, p: Parts)
    requires Writable(key) && p == TakeAll(NO_PARTS, CommonEntries(key))
    ensures TakeAll(p, TypeEntries(key.crv, key.material)) == PartsFor(key)
  {
    hide TakeAll;
    TakeCommon(key);
    TakeNone(p);
    match key.material
    case Ec2(x, y, d) =>
      var a := [KeyEntry(CRV, Number(key.crv)), KeyEntry(X, Octets(x)), KeyEntry(Y, Octets(y))];
      TakeThree(p, a[0], a[1], a[2]);
      TakeOptional(p, a, D, d);
    case Rsa(n, e, s) =>
      var a := [KeyEntry(CRV, Reserved(n)), KeyEntry(X, Octets(e))];
      TakeTwo(p, a[0], a[1]);
      if s.Some? {
        TakeJoin(p, a, RsaPrivateEntries(s.value));
        TakeRsa(TakeAll(p, a), s.value);
      } else {
        TakeJoin(p, a, []);
        TakeNone(TakeAll(p, a));
      }
    case Akp(pub, seed) =>
      TakeOne(p, KeyEntry(CRV, Reserved(pub)));
      TakeOptional(p, [KeyEntry(CRV, Reserved(pub))], X, seed);
    case HssLms(pub) => TakeOne(p, KeyEntry(CRV, Octets(pub)));
    case Okp(pub, priv) =>
      var a := [KeyEntry(CRV, Number(key.crv)), KeyEntry(X, Octets(pub))];
      TakeTwo(p, a[0], a[1]);
      TakeOptional(p, a, D, priv);
    case Symmetric(k) => TakeOne(p, KeyEntry(CRV, Octets(k)));
  }

  lemma TakeOptional(p: Parts, a: seq<KeyEntry>, lbl: i64, d: Option<Bytes>)
    ensures TakeAll(p, a + (if d.Some? then [KeyEntry(lbl, Octets(d.value))] else []))
         == if d.Some? then Take(TakeAll(p, a), KeyEntry(lbl, Octets(d.value))) else TakeAll(p, a)
  {
    hide Take, TakeAll;
    var q := TakeAll(p, a);
    TakeNone(q);
    if d.Some? {
      TakeJoin(p, a, [KeyEntry(lbl, Octets(d.value))]);
      TakeOne(q, KeyEntry(lbl, Octets(d.value)));
    } else {
      TakeJoin(p, a, []);
    }
  }

  lemma TakeRsa(p: Parts, s: RsaPrivate)
    ensures TakeAll(p, RsaPrivateEntries(s))
         == p.(y := Some(s.d), d := Some(s.p), q := Some(s.q), dp := Some(s.dp), dq := Some(s.dq), qi := Some(s.qi))
  {
    hide TakeAll;
    var es := RsaPrivateEntries(s);
    var a, b := es[..3], es[3..];
    assert es == a + b && a == [es[0], es[1], es[2]] && b == [es[3], es[4], es[5]];
    TakeJoin(p, a, b);
    TakeThree(p, es[0], es[1], es[2]);
    TakeThree(TakeAll(p, a), es[3], es[4], es[5]);
  }

  lemma CommonTyped(key: CoseKey)
    requires Writable(key)
    ensures var es := CommonEntries(key);
      AllTyped(es) && Fresh(es, {}) && forall k :: 0 <= k < |es| ==> es[k].lbl > 0
  {
  }

  lemma TypedString(lbl: i64, v: KeyValue)
    requires -8 <= lbl <= -1 && !v.Number? && (v.Reserved? ==> 24 <= |v.r| <= 65535)
    ensures Typed(KeyEntry(lbl, v))
  {
  }

  lemma TypedNumber(n: i64)
    requires InInt32(n)
    ensures Typed(KeyEntry(CRV, Number(n)))
  {
  }

  lemma RsaTyped(p: RsaPrivate)
    requires 24 <= |p.d| <= 65535
    ensures var es := RsaPrivateEntries(p); AllTyped(es) && forall k :: 0 <= k < 6 ==> es[k].lbl == -3 - k
  {
    hide Typed;
    var es := RsaPrivateEntries(p);
    forall k | 0 <= k < 6
      ensures Typed(es[k]) && es[k].lbl == -3 - k
    {
      TypedString(-3 - k, es[k].value);
    }
  }

  lemma TypeTyped(crv: u64, m: Material)
    requires crv <= INT32_MAX && Reservable(m)
    ensures var es := TypeEntries(crv, m);
      AllTyped(es) && Fresh(es, {}) && forall k :: 0 <= k < |es| ==> es[k].lbl < 0
  {
    hide Typed, RsaPrivateEntries;
    var es := TypeEntries(crv, m);
    TypedNumber(crv);
    if m.Rsa? && m.private.Some? {
      var a, b := [KeyEntry(CRV, Reserved(m.n)), KeyEntry(X, Octets(m.e))], RsaPrivateEntries(m.private.value);
      assert es == a + b;
      RsaTyped(m.private.value);
      TypedString(CRV, Reserved(m.n));
      TypedString(X, Octets(m.e));
      forall k | 0 <= k < 8
        ensures Typed(es[k]) && es[k].lbl == -1 - k
      {
        assert k >= 2 ==> es[k] == b[k - 2];
      }
    } else {
      forall k | 0 <= k < |es|
        ensures Typed(es[k]) && es[k].lbl < 0
        ensures forall a :: 0 <= a < k ==> es[a].lbl > es[k].lbl
      {
        if !es[k].value.Number? {
          TypedString(es[k].lbl, es[k].value);
        }
      }
    }
  }

  lemma KeyTyped(key: CoseKey)
    requires Writable(key) && Reservable(key.material)
    ensures AllTyped(KeyEntries(key)) && Fresh(KeyEntries(key), {})
  {
    hide CommonEntries, TypeEntries, Typed, Reservable;
    CommonTyped(key);
    TypeTyped(key.crv, key.material);
  }

  /** Every written key is taken apart by the decoder into what it was written from, as long as
      its entries are not too many and its large numbers fit their heads. */
  lemma KeyPartsRoundTrip(key: CoseKey)
    requires Writable(key) && Reservable(key.material) && |KeyEntries(key)| <= MAX_MAP_ITEMS
    ensures KeyParts(KeyBytes(key)) == Ok(PartsFor(key), |KeyBytes(key)|) && KeyBytes(key) != []
  {
    hide EntriesBytes, EncodeHead, DecodeContainer, DecodeEntries, AllTyped, Fresh, CommonEntries, TypeEntries, TakeAll,
         SameSlice, PartsFor, Reservable;
    var es, s := KeyEntries(key), KeyBytes(key);
    var h, b := EncodeHead(MAP, |es|), EntriesBytes(es);
    ThreeParts(h, b, []);
    assert s == h + b + [];
    KeyTyped(key);
    EntriesParse(es, s, |h|, {}, NO_PARTS);
    DecodeMapIs(s, 0, |es|);
    TakeJoin(NO_PARTS, CommonEntries(key), TypeEntries(key.crv, key.material));
    TakeType(key, TakeAll(NO_PARTS, CommonEntries(key)));
  }

  /** Peeking at a written key tells its type, algorithm, curve and identifier; decoding it ends
      as the validation and the import of exactly its parts do. */
  lemma KeyRoundTrip(key: CoseKey, attached: Attached, imported: Parts -> Status)
    requires Writable(key) && Reservable(key.material) && |KeyEntries(key)| <= MAX_MAP_ITEMS
    ensures Peek(KeyBytes(key)) == Ok(PartsFor(key).info, |KeyBytes(key)|)
    ensures var p := PartsFor(key);
      DecodeKey(KeyBytes(key), attached, imported)
      == if KeyStatus(p, attached).Fail? then Err(KeyStatus(p, attached).error)
         else if imported(p).Fail? then Err(imported(p).error)
         else Ok(p, |KeyBytes(key)|)
  {
    hide KeyBytes, KeyParts, Peek, KeyStatus, KeyEntries, Reservable;
    KeyPartsRoundTrip(key);
    PartsIffPeek(KeyBytes(key));
  }
}
