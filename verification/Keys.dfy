/**
 Reading COSE_Key maps (section 7 of RFC 9052): the routing fields that a caller may peek at,
 and the label loop and validation of the decoder, as functions of the bytes.
 */
module Keys {
  import opened Wire
  import opened Cbor
  import opened CborRoundTrip
  import opened Header

  const KTY: i64 := 1
  const KEY_KID: i64 := 2
  const KEY_ALG: i64 := 3
  const KEY_OPS: i64 := 4
  const CRV: i64 := -1
  const X: i64 := -2
  const Y: i64 := -3
  const D: i64 := -4
  const RSA_Q: i64 := -5
  const RSA_DP: i64 := -6
  const RSA_DQ: i64 := -7
  const RSA_QINV: i64 := -8

  const KTY_OKP := 1
  const KTY_EC2 := 2
  const KTY_RSA := 3
  const KTY_SYMMETRIC := 4
  const KTY_HSS_LMS := 5
  const KTY_AKP := 7

  const CRV_ED25519 := 6
  const CRV_ED448 := 7
  const MLDSA_SEED_SZ := 32

  /** The object that the caller attached for the import, if any. */
  datatype Attached = NoObject | EccObject | Ed25519Object | Ed448Object | RsaObject | MlDsaObject | BytesObject | LmsObject

  /** The fields that routing needs. */
  datatype KeyInfo = KeyInfo(kty: int, alg: int, crv: int, kid: Option<seq<byte>>)

  const NO_INFO := KeyInfo(0, 0, 0, None)

  /** What the label loop of the decoder collects. */
  datatype Parts = Parts(info: KeyInfo, n: Option<seq<byte>>, x: Option<seq<byte>>, y: Option<seq<byte>>,
                         d: Option<seq<byte>>, q: Option<seq<byte>>, dp: Option<seq<byte>>, dq: Option<seq<byte>>,
                         qi: Option<seq<byte>>, rsaTypes: bool)

  const NO_PARTS := Parts(NO_INFO, None, None, None, None, None, None, None, None, true)

  /** A label: text labels are refused. */
  function KeyLabel(s: seq<byte>, i: nat): (r: Dec<i64>)
    ensures r.Ok? ==> i < r.next <= |s|
  {
    if i >= |s| || PeekType(s, i) == TSTR then Err(CborMalformed) else DecodeInt(s, i, false)
  }

  function KtyAt(s: seq<byte>, j: nat): (r: Dec<int>)
    ensures r.Ok? ==> j < r.next <= |s|
  {
    var (n, e) :- DecodeUint(s, j, false);
    if n > INT32_MAX then Err(CoseBadHdr) else Ok(n, e)
  }

  function AlgAt(s: seq<byte>, j: nat): (r: Dec<int>)
    ensures r.Ok? ==> j < r.next <= |s|
  {
    var (n, e) :- DecodeInt(s, j, false);
    if !InInt32(n) then Err(CoseBadAlg) else Ok(n, e)
  }

  function CrvAt(s: seq<byte>, j: nat): (r: Dec<int>)
    ensures r.Ok? ==> j < r.next <= |s|
  {
    var (n, e) :- DecodeInt(s, j, false);
    if !InInt32(n) then Err(CoseBadHdr) else Ok(n, e)
  }

  // ----- Peeking -----

  /** One entry, for the caller who only peeks: unknown values are skipped. */
  function PeekEntry(s: seq<byte>, j: nat, lbl: i64, info: KeyInfo): (r: Dec<KeyInfo>)
    ensures r.Ok? ==> j < r.next <= |s|
  {
    if lbl == KTY then
      var (n, e) :- KtyAt(s, j);
      Ok(info.(kty := n), e)
    else if lbl == KEY_KID then
      var (b, e) :- DecodeBstr(s, j, false);
      Ok(info.(kid := Some(b)), e)
    else if lbl == KEY_ALG then
      var (n, e) :- AlgAt(s, j);
      Ok(info.(alg := n), e)
    else if lbl == KEY_OPS then Err(Unsupported)
    else if lbl == CRV && PeekType(s, j) != BSTR then
      var (n, e) :- CrvAt(s, j);
      Ok(info.(crv := n), e)
    else
      var (_, e) :- Skip(s, j, false);
      Ok(info, e)
  }

  function PeekEntries(s: seq<byte>, i: nat, n: nat, seen: set<Label>, info: KeyInfo): (r: Dec<KeyInfo>)
    ensures r.Ok? ==> i <= r.next && (n > 0 ==> r.next <= |s|)
    decreases n
  {
    if n == 0 then Ok(info, i)
    else
      var (lbl, j) :- KeyLabel(s, i);
      if IntLabel(lbl) in seen then Err(CborMalformed)
      else
        var (next, e) :- PeekEntry(s, j, lbl, info);
        PeekEntries(s, e, n - 1, seen + {IntLabel(lbl)}, next)
  }

  /** `wc_CoseKey_PeekInfo`. */
  function Peek(s: seq<byte>): (r: Dec<KeyInfo>)
    ensures r.Ok? ==> r.next == |s|
  {
    if s == [] then Err(InvalidArg)
    else
      var (n, i) :- DecodeMap(s, 0, false);
      if n > MAX_MAP_ITEMS then Err(CborMalformed)
      else
        var (info, e) :- PeekEntries(s, i, n, {}, NO_INFO);
        if info.kty == 0 then Err(CoseBadHdr)
        else if e != |s| then Err(CborMalformed)
        else Ok(info, e)
  }

  // ----- Decoding -----

  /** A byte string, or something else that is skipped and noted. */
  function RsaPart(s: seq<byte>, j: nat): (r: Dec<Option<seq<byte>>>)
    ensures r.Ok? ==> j < r.next <= |s|
  {
    if PeekType(s, j) == BSTR then
      var (b, e) :- DecodeBstr(s, j, false);
      Ok(Some(b), e)
    else
      var (_, e) :- Skip(s, j, false);
      Ok(None, e)
  }

  /** One entry, for the decoder: coordinates must be byte strings. */
  function DecodeEntry(s: seq<byte>, j: nat, lbl: i64, p: Parts): (r: Dec<Parts>)
    ensures r.Ok? ==> j < r.next <= |s|
  {
    if lbl == KTY then
      var (n, e) :- KtyAt(s, j);
      Ok(p.(info := p.info.(kty := n)), e)
    else if lbl == KEY_KID then
      var (b, e) :- DecodeBstr(s, j, false);
      Ok(p.(info := p.info.(kid := Some(b))), e)
    else if lbl == KEY_ALG then
      if PeekType(s, j) == TSTR then Err(CoseBadAlg)
      else
        var (n, e) :- AlgAt(s, j);
        Ok(p.(info := p.info.(alg := n)), e)
    else if lbl == KEY_OPS then Err(Unsupported)
    else if lbl == CRV then
      if PeekType(s, j) == BSTR then
        var (b, e) :- DecodeBstr(s, j, false);
        Ok(p.(n := Some(b)), e)
      else
        var (n, e) :- CrvAt(s, j);
        Ok(p.(info := p.info.(crv := n)), e)
    else if lbl == X then
      var (b, e) :- DecodeBstr(s, j, false);
      Ok(p.(x := Some(b)), e)
    else if lbl == Y then
      var (b, e) :- DecodeBstr(s, j, false);
      Ok(p.(y := Some(b)), e)
    else if lbl == D then
      var (b, e) :- DecodeBstr(s, j, false);
      Ok(p.(d := Some(b)), e)
    else RareEntry(s, j, lbl, p)
  }

  /** The labels that only RSA keys use, and unknown ones. */
  function RareEntry(s: seq<byte>, j: nat, lbl: i64, p: Parts): (r: Dec<Parts>)
    ensures r.Ok? ==> j < r.next <= |s|
  {
    if lbl == RSA_Q || lbl == RSA_DP || lbl == RSA_DQ || lbl == RSA_QINV then
      var (b, e) :- RsaPart(s, j);
      if b.None? then Ok(p.(rsaTypes := false), e)
      else if lbl == RSA_Q then Ok(p.(q := b), e)
      else if lbl == RSA_DP then Ok(p.(dp := b), e)
      else if lbl == RSA_DQ then Ok(p.(dq := b), e)
      else Ok(p.(qi := b), e)
    else
      var (_, e) :- Skip(s, j, false);
      Ok(p, e)
  }

  function DecodeEntries(s: seq<byte>, i: nat, n: nat, seen: set<Label>, p: Parts): (r: Dec<Parts>)
    ensures r.Ok? ==> i <= r.next && (n > 0 ==> r.next <= |s|)
    decreases n
  {
    if n == 0 then Ok(p, i)
    else
      var (lbl, j) :- KeyLabel(s, i);
      if IntLabel(lbl) in seen then Err(CborMalformed)
      else
        var (next, e) :- DecodeEntry(s, j, lbl, p);
        DecodeEntries(s, e, n - 1, seen + {IntLabel(lbl)}, next)
  }

  /** The label loop over a whole key. */
  function KeyParts(s: seq<byte>): (r: Dec<Parts>)
    ensures r.Ok? ==> r.next <= |s|
  {
    var (n, i) :- DecodeMap(s, 0, false);
    if n > MAX_MAP_ITEMS then Err(CborMalformed) else DecodeEntries(s, i, n, {}, NO_PARTS)
  }

  function Length(b: Option<seq<byte>>): (n: nat) {
    if b.Some? then |b.value| else 0
  }

  predicate Words(p: Parts) {
    && Length(p.n) <= WORD32_MAX && Length(p.x) <= WORD32_MAX && Length(p.y) <= WORD32_MAX && Length(p.d) <= WORD32_MAX
    && Length(p.q) <= WORD32_MAX && Length(p.dp) <= WORD32_MAX && Length(p.dq) <= WORD32_MAX && Length(p.qi) <= WORD32_MAX
  }

  /** The sizes of EC2 coordinates. */
  function CoordinateSize(crv: int): (n: Option<nat>) {
    if crv == 1 then Some(32) else if crv == 2 then Some(48) else if crv == 3 then Some(66) else None
  }

  /** The size of an Edwards curve's keys. */
  function EdwardsSize(crv: int): (n: Option<nat>) {
    if crv == CRV_ED25519 then Some(32) else if crv == CRV_ED448 then Some(57) else None
  }

  predicate HasLength(b: Option<seq<byte>>, n: nat) {
    b.Some? ==> |b.value| == n
  }

  /** The rules for RSA keys (RFC 8230): public fields are there, private fields are all there or
      none, and are no wider than the modulus allows. */
  function RsaStatus(p: Parts, attached: Attached): (r: Status) {
    var mine := attached == NoObject || attached == RsaObject;
    var half := Length(p.n) - Length(p.n) / 2;
    if mine && (Length(p.n) == 0 || Length(p.x) == 0) then Fail(CoseBadHdr)
    else if !Words(p) then Fail(CoseBadHdr)
    else if p.y.Some? && (Length(p.y) > Length(p.n) || Length(p.d) > half || Length(p.q) > half || Length(p.dp) > half
                          || Length(p.dq) > half || Length(p.qi) > half) then Fail(CoseBadHdr)
    else if mine && (p.y.Some? || p.d.Some? || p.q.Some? || p.dp.Some? || p.dq.Some? || p.qi.Some?)
            && !(p.y.Some? && p.d.Some? && p.q.Some? && p.dp.Some? && p.dq.Some? && p.qi.Some?) then Fail(CoseBadHdr)
    else Success
  }

  /** The rules for EC2 keys: a point or a scalar, with coordinates of the curve's size. */
  function Ec2Status(p: Parts): (r: Status) {
    if (p.x.None? || p.y.None?) && p.d.None? then Fail(CoseBadHdr)
    else match CoordinateSize(p.info.crv)
      case None => Fail(CoseBadAlg)
      case Some(n) => if HasLength(p.x, n) && HasLength(p.y, n) && HasLength(p.d, n) then Success else Fail(CoseBadHdr)
  }

  /** The rules for Edwards curve keys. */
  function OkpStatus(p: Parts): (r: Status) {
    if p.x.None? && p.d.None? then Fail(CoseBadHdr)
    else match EdwardsSize(p.info.crv)
      case None => Fail(CoseBadAlg)
      case Some(n) => if HasLength(p.x, n) && HasLength(p.d, n) then Success else Fail(CoseBadHdr)
  }

  /** The attached object must be of the type that the key names. */
  predicate MatchesObject(attached: Attached, info: KeyInfo) {
    match attached
    case NoObject => true
    case EccObject => info.kty == KTY_EC2
    case Ed25519Object => info.kty == KTY_OKP && info.crv == CRV_ED25519
    case Ed448Object => info.kty == KTY_OKP && info.crv == CRV_ED448
    case RsaObject => info.kty == KTY_RSA
    case MlDsaObject => info.kty == KTY_AKP
    case BytesObject => info.kty == KTY_SYMMETRIC
    case LmsObject => info.kty == KTY_HSS_LMS
  }

  /** The rules for ML-DSA keys (RFC 9964) and HSS-LMS keys (RFC 8778). */
  function PostQuantumStatus(p: Parts): (r: Status) {
    if p.info.kty == KTY_AKP && !(-50 <= p.info.alg <= -48) then Fail(CoseBadAlg)
    else if p.info.kty == KTY_AKP && (p.n.None? || !HasLength(p.x, MLDSA_SEED_SZ)) then Fail(CoseBadHdr)
    else if p.info.kty == KTY_HSS_LMS && p.info.alg != 0 && p.info.alg != ALG_HSS_LMS then Fail(CoseBadAlg)
    else if p.info.kty == KTY_HSS_LMS && (p.n.None? || p.x.Some? || p.y.Some? || p.d.Some?) then Fail(CoseBadHdr)
    else Success
  }

  /** The checks between the label loop and the import. */
  function KeyStatus(p: Parts, attached: Attached): (r: Status) {
    var typed := if p.info.kty == KTY_RSA then RsaStatus(p, attached)
                 else if !Words(p) then Fail(CoseBadHdr)
                 else if p.info.kty == KTY_EC2 then Ec2Status(p)
                 else if p.info.kty == KTY_OKP then OkpStatus(p)
                 else Success;
    if typed.Fail? then typed
    else if !MatchesObject(attached, p.info) then Fail(CoseKeyType)
    else PostQuantumStatus(p)
  }

  /** `wc_CoseKey_Decode` for a key without a delegated signer; `imported` is how the import of
      the parts into the attached object ends. */
  function DecodeKey(s: seq<byte>, attached: Attached, imported: Parts -> Status): (r: Dec<Parts>)
    ensures r.Ok? ==> r.next == |s|
  {
    if s == [] then Err(InvalidArg)
    else
      var (p, e) :- KeyParts(s);
      if p.info.kty == 0 then Err(CoseBadHdr)
      else if p.info.kty == KTY_RSA && !p.rsaTypes then Err(CoseBadHdr)
      else if e != |s| then Err(CborMalformed)
      else if KeyStatus(p, attached).Fail? then Err(KeyStatus(p, attached).error)
      else if imported(p).Fail? then Err(imported(p).error)
      else Ok(p, e)
  }

  // ----- The two loops agree -----

  /** A byte string is skipped to where it is read to. */
  lemma BstrSkip(s: seq<byte>, j: nat)
    ensures DecodeBstr(s, j, false).Ok? ==> Skip(s, j, false) == Ok((), DecodeBstr(s, j, false).next)
    ensures PeekType(s, j) == BSTR && Skip(s, j, false).Ok? ==> DecodeBstr(s, j, false).Ok?
  {
    hide SkipItems;
    if DecodeHead(s, j, false).Ok? && DecodeHead(s, j, false).value.major == BSTR {
      SkipOfHead(s, j, CBOR_MAX_DEPTH, false);
    }
    if PeekType(s, j) == BSTR && Skip(s, j, false).Ok? {
      SkippedHead(s, j);
    }
  }

  lemma SkippedHead(s: seq<byte>, j: nat)
    requires Skip(s, j, false).Ok?
    ensures DecodeHead(s, j, false).Ok?
  {
    hide DecodeHead;
  }

  /** An entry of the coordinates that the decoder wants as byte strings. */
  predicate CoordinateOk(s: seq<byte>, j: nat, lbl: i64) {
    lbl == X || lbl == Y || lbl == D ==> DecodeBstr(s, j, false).Ok?
  }

  /** The labels that only the decoder looks at. */
  lemma RareAgrees(s: seq<byte>, j: nat, lbl: i64, p: Parts)
    ensures var a, b := RareEntry(s, j, lbl, p), Skip(s, j, false);
      && (a.Ok? <==> b.Ok?) && (a.Ok? ==> a.value.info == p.info && a.next == b.next)
  {
    hide DecodeBstr, Skip, PeekType;
    BstrSkip(s, j);
  }

  /** A label with a coordinate. */
  lemma CoordinateAgrees(s: seq<byte>, j: nat)
    ensures DecodeBstr(s, j, false).Ok? ==>
      Skip(s, j, false).Ok? && Skip(s, j, false).next == DecodeBstr(s, j, false).next
    ensures PeekType(s, j) == BSTR ==> (DecodeBstr(s, j, false).Ok? <==> Skip(s, j, false).Ok?)
  {
    hide DecodeBstr, Skip, PeekType;
    BstrSkip(s, j);
  }

  lemma EntriesAgree(s: seq<byte>, j: nat, lbl: i64, p: Parts)
    ensures var a, b := DecodeEntry(s, j, lbl, p), PeekEntry(s, j, lbl, p.info);
      && (a.Ok? <==> b.Ok? && CoordinateOk(s, j, lbl))
      && (a.Ok? ==> b == Ok(a.value.info, a.next))
  {
    hide DecodeBstr, Skip, KtyAt, AlgAt, CrvAt, PeekType, RareEntry;
    RareAgrees(s, j, lbl, p);
    CoordinateAgrees(s, j);
    if PeekType(s, j) == TSTR {
      TextIsNoInt(s, j);
    }
  }

  lemma TextIsNoInt(s: seq<byte>, j: nat)
    requires PeekType(s, j) == TSTR
    ensures AlgAt(s, j).Err?
  {
  }

  /** Every coordinate among the `n` entries from `i` on is a byte string. */
  predicate CoordinatesOk(s: seq<byte>, i: nat, n: nat)
    decreases n
  {
    n > 0 && KeyLabel(s, i).Ok? ==>
      var lbl, j := KeyLabel(s, i).value, KeyLabel(s, i).next;
      && CoordinateOk(s, j, lbl)
      && (Skip(s, j, false).Ok? ==> CoordinatesOk(s, Skip(s, j, false).next, n - 1))
  }

  /** Every coordinate of a key is a byte string. */
  predicate CoordinatesAreStrings(s: seq<byte>) {
    DecodeMap(s, 0, false).Ok? ==> CoordinatesOk(s, DecodeMap(s, 0, false).next, DecodeMap(s, 0, false).value)
  }

  /** What is peeked at is skipped to the same end. */
  lemma PeekSkips(s: seq<byte>, j: nat, lbl: i64, info: KeyInfo)
    requires PeekEntry(s, j, lbl, info).Ok?
    ensures Skip(s, j, false).Ok? && Skip(s, j, false).next == PeekEntry(s, j, lbl, info).next
  {
    hide DecodeBstr, KtyAt, AlgAt, CrvAt, SkipItems;
    BstrSkip(s, j);
    NumberSkips(s, j);
  }

  lemma NumberSkips(s: seq<byte>, j: nat)
    ensures KtyAt(s, j).Ok? ==> Skip(s, j, false) == Ok((), KtyAt(s, j).next)
    ensures AlgAt(s, j).Ok? ==> Skip(s, j, false) == Ok((), AlgAt(s, j).next)
    ensures CrvAt(s, j).Ok? ==> Skip(s, j, false) == Ok((), CrvAt(s, j).next)
  {
    hide SkipItems;
    if DecodeHead(s, j, false).Ok? && (DecodeHead(s, j, false).value.major == UINT || DecodeHead(s, j, false).value.major == NEGINT) {
      SkipOfHead(s, j, CBOR_MAX_DEPTH, false);
    }
    hide DecodeHead;
  }

  lemma {:induction false} LoopsAgree(s: seq<byte>, i: nat, n: nat, seen: set<Label>, p: Parts)
    ensures var a, b := DecodeEntries(s, i, n, seen, p), PeekEntries(s, i, n, seen, p.info);
      && (a.Ok? <==> b.Ok? && CoordinatesOk(s, i, n))
      && (a.Ok? ==> b == Ok(a.value.info, a.next))
    decreases n
  {
    hide KeyLabel, DecodeEntry, PeekEntry, Skip, CoordinateOk;
    if n > 0 && KeyLabel(s, i).Ok? {
      var lbl, j := KeyLabel(s, i).value, KeyLabel(s, i).next;
      EntriesAgree(s, j, lbl, p);
      if PeekEntry(s, j, lbl, p.info).Ok? {
        PeekSkips(s, j, lbl, p.info);
      }
      var a := DecodeEntry(s, j, lbl, p);
      if a.Ok? {
        LoopsAgree(s, a.next, n - 1, seen + {IntLabel(lbl)}, a.value);
      }
    }
  }

  /** The loop of the decoder takes exactly the keys that can be peeked at and whose coordinates
      are byte strings, and the two find the same key type, algorithm, curve and identifier. */
  lemma PartsIffPeek(s: seq<byte>)
    ensures var p := KeyParts(s);
      && (s != [] && p.Ok? && p.value.info.kty != 0 && p.next == |s| <==> Peek(s).Ok? && CoordinatesAreStrings(s))
      && (s != [] && p.Ok? && p.value.info.kty != 0 && p.next == |s| ==> Peek(s) == Ok(p.value.info, |s|))
  {
    hide DecodeEntries, PeekEntries, DecodeContainer, CoordinatesOk;
    if DecodeMap(s, 0, false).Ok? {
      LoopsAgree(s, DecodeMap(s, 0, false).next, DecodeMap(s, 0, false).value, {}, NO_PARTS);
    }
  }

  /** Whenever a key is decoded, peeking at it succeeds and gives the same routing fields. */
  lemma PeekAgrees(s: seq<byte>, attached: Attached, imported: Parts -> Status)
    requires DecodeKey(s, attached, imported).Ok?
    ensures Peek(s) == Ok(DecodeKey(s, attached, imported).value.info, |s|)
  {
    hide KeyParts, KeyStatus, Peek;
    PartsIffPeek(s);
  }
}
