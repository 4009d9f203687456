/**
 The claims of a PSA attestation token (RFC 9783) as functions of the bytes: one map of
 claims, in it an array of maps that each describe a software component.  Reading allows
 variant encodings; a repeated label is found by scanning the map again from its start.
 */
module Eat {
  import opened Wire
  import opened Cbor

  /** The limits of a build, and what they must permit. */
  type ComponentLimit = n: nat | 1 <= n <= SIZE_MAX witness 32
  type ClaimLimit = n: nat | 10 <= n <= SIZE_MAX witness 64
  type ComponentClaimLimit = n: nat | 5 <= n <= SIZE_MAX witness 16
  const MAX_COMPONENTS: ComponentLimit
  const MAX_CLAIMS: ClaimLimit
  const MAX_COMPONENT_CLAIMS: ComponentClaimLimit

  // ----- Labels -----

  /** The key of a map entry, by value: how it is encoded does not matter. */
  datatype MapKey = Unsigned(val: u64) | Negative(val: u64) | Text(text: seq<byte>)

  function DecodeKey(s: seq<byte>, i: nat): (r: Dec<MapKey>)
    ensures r.Ok? ==> i < r.next <= |s|
  {
    var (it, j) :- DecodeHead(s, i, true);
    if it.major == UINT then Ok(Unsigned(it.val), j)
    else if it.major == NEGINT then Ok(Negative(it.val), j)
    else if it.major == TSTR then Ok(Text(it.data), j)
    else Err(CborType)
  }

  /** The integer that a key stands for, if it is in the range of a label. */
  function Number(key: MapKey): (n: Option<int>) {
    match key
    case Unsigned(v) => if v <= INT64_MAX then Some(v) else None
    case Negative(v) => if v <= INT64_MAX then Some(-1 - v) else None
    case Text(_) => None
  }

  /** Whether a key stands among the `n` entries from `i` on that begin before `before`. */
  function PriorFrom(m: seq<byte>, i: nat, n: nat, before: nat, key: MapKey): (r: Dec<bool>)
    decreases n
  {
    if n == 0 || i >= before then if i != before then Err(CborMalformed) else Ok(false, i)
    else
      var (prior, j) :- DecodeKey(m, i);
      if prior == key then Ok(true, j)
      else
        var (_, e) :- Skip(m, j, true);
        PriorFrom(m, e, n - 1, before, key)
  }

  function HasPrior(m: seq<byte>, before: nat, key: MapKey): (r: Dec<bool>) {
    var (n, i) :- DecodeMap(m, 0, true);
    PriorFrom(m, i, n, before, key)
  }

  // ----- Claims -----

  datatype Claim =
    | Nonce
    | Ueid
    | Profile
    | BootSeed
    | ClientId
    | Lifecycle
    | Implementation
    | CertRef
    | Components
    | NoMeasurements
    | Vsi

  /** A claim and its namespace: that of the current profile, or the legacy one. */
  datatype Known = Known(claim: Claim, legacy: bool)

  function ClaimOf(lbl: int): (k: Option<Known>) {
    match lbl
    case 10 => Some(Known(Nonce, false))
    case 256 => Some(Known(Ueid, false))
    case 265 => Some(Known(Profile, false))
    case 268 => Some(Known(BootSeed, false))
    case 2394 => Some(Known(ClientId, false))
    case 2395 => Some(Known(Lifecycle, false))
    case 2396 => Some(Known(Implementation, false))
    case 2398 => Some(Known(CertRef, false))
    case 2399 => Some(Known(Components, false))
    case 2400 => Some(Known(Vsi, false))
    case -75008 => Some(Known(Nonce, true))
    case -75009 => Some(Known(Ueid, true))
    case -75000 => Some(Known(Profile, true))
    case -75004 => Some(Known(BootSeed, true))
    case -75001 => Some(Known(ClientId, true))
    case -75002 => Some(Known(Lifecycle, true))
    case -75003 => Some(Known(Implementation, true))
    case -75005 => Some(Known(CertRef, true))
    case -75006 => Some(Known(Components, true))
    case -75007 => Some(Known(NoMeasurements, true))
    case -75010 => Some(Known(Vsi, true))
    case _ => None
  }

  function KnownOf(key: MapKey): (k: Option<Known>) {
    match Number(key) { case None => None case Some(n) => ClaimOf(n) }
  }

  /** A software component. */
  datatype Component = Component(mtype: Option<seq<byte>>, value: Option<seq<byte>>, version: Option<seq<byte>>,
                                 signer: Option<seq<byte>>, desc: Option<seq<byte>>)

  /** What is kept of a value: a string, a number, components with their bytes, or nothing. */
  datatype Value = Str(data: seq<byte>) | Num(n: int) | Parts(cs: seq<Component>, raw: seq<byte>) | Skipped

  /** An entry that was read. */
  datatype Pair = Pair(key: MapKey, value: Value)

  /** The value of a component's entry with this number. */
  function StrOf(ps: seq<Pair>, n: int): (v: Option<seq<byte>>) {
    if ps == [] then None
    else if Number(ps[0].key) == Some(n) && ps[0].value.Str? then Some(ps[0].value.data)
    else StrOf(ps[1..], n)
  }

  function ComponentOf(ps: seq<Pair>): (c: Component) {
    Component(StrOf(ps, 1), StrOf(ps, 2), StrOf(ps, 4), StrOf(ps, 5), StrOf(ps, 6))
  }

  predicate IsHash(v: Option<seq<byte>>) {
    v.Some? && (|v.value| == 32 || |v.value| == 48 || |v.value| == 64)
  }

  /** An entry of the other namespace was read before. */
  predicate Mixed(ps: seq<Pair>, legacy: bool) {
    exists k :: 0 <= k < |ps| && KnownOf(ps[k].key).Some? && KnownOf(ps[k].key).value.legacy != legacy
  }

  /** The claim was read before. */
  predicate Seen(ps: seq<Pair>, claim: Claim) {
    exists k :: 0 <= k < |ps| && KnownOf(ps[k].key).Some? && KnownOf(ps[k].key).value.claim == claim
  }

  /** An entry with this number was read before. */
  predicate SeenNumber(ps: seq<Pair>, n: int) {
    exists k :: 0 <= k < |ps| && Number(ps[k].key) == Some(n)
  }

  /** The text that names the current profile. */
  function TfmProfile(): (t: seq<byte>) {
    [0x74, 0x61, 0x67, 0x3A, 0x70, 0x73, 0x61, 0x63, 0x65, 0x72, 0x74, 0x69, 0x66, 0x69, 0x65, 0x64, 0x2E, 0x6F, 0x72,
     0x67, 0x2C, 0x32, 0x30, 0x32, 0x33, 0x3A, 0x70, 0x73, 0x61, 0x23, 0x74, 0x66, 0x6D]
  }

  /** The text that names the legacy profile. */
  function LegacyProfile(): (t: seq<byte>) {
    [0x50, 0x53, 0x41, 0x5F, 0x49, 0x4F, 0x54, 0x5F, 0x50, 0x52, 0x4F, 0x46, 0x49, 0x4C, 0x45, 0x5F, 0x31]
  }

  predicate LifecycleValid(n: nat) {
    n <= 0xFFFF && n / 0x100 % 0x10 == 0 && n / 0x1000 <= 6
  }

  // ----- Reading -----

  datatype Shape = ClaimsMap | ComponentMap

  /** The value of an entry, typed by its key. */
  function ValueAt(shape: Shape, s: seq<byte>, j: nat, key: MapKey, ps: seq<Pair>): (r: Dec<Value>)
    ensures r.Ok? ==> j < r.next <= |s|
    decreases if shape.ClaimsMap? then 5 else 0, 0
  {
    match shape
    case ComponentMap => ComponentValue(s, j, key, ps)
    case ClaimsMap =>
      match KnownOf(key)
      case None => var (_, e) :- Skip(s, j, true); Ok(Skipped, e)
      case Some(k) =>
        if Mixed(ps, k.legacy) then Err(EatPsaProfile)
        else if Seen(ps, k.claim) then Err(EatPsaClaim)
        else if k.claim == Components then
          var (cs, e) :- ComponentsAt(s, j);
          Ok(Parts(cs, s[j..e]), e)
        else ScalarClaim(s, j, k)
  }

  function ComponentValue(s: seq<byte>, j: nat, key: MapKey, ps: seq<Pair>): (r: Dec<Value>)
    ensures r.Ok? ==> j < r.next <= |s|
  {
    match Number(key)
    case None => var (_, e) :- Skip(s, j, true); Ok(Skipped, e)
    case Some(n) =>
      if n in {1, 2, 4, 5, 6} && SeenNumber(ps, n) then Err(EatPsaClaim)
      else if n in {1, 4, 6} then
        var (d, e) :- DecodeTstr(s, j, true);
        Ok(Str(d), e)
      else if n in {2, 5} then
        var (d, e) :- DecodeBstr(s, j, true);
        Ok(Str(d), e)
      else
        var (_, e) :- Skip(s, j, true);
        Ok(Skipped, e)
  }

  /** The value of a claim other than the components. */
  function ScalarClaim(s: seq<byte>, j: nat, k: Known): (r: Dec<Value>)
    ensures r.Ok? ==> j < r.next <= |s|
  {
    match k.claim
    case Profile =>
      var (d, e) :- DecodeTstr(s, j, true);
      if d != (if k.legacy then LegacyProfile() else TfmProfile()) then Err(EatPsaProfile) else Ok(Str(d), e)
    case ClientId =>
      var (n, e) :- DecodeInt(s, j, true);
      if !(-INT32_MAX - 1 <= n <= INT32_MAX) || n == 0 then Err(EatPsaClaim) else Ok(Num(n), e)
    case Lifecycle =>
      var (n, e) :- DecodeUint(s, j, true);
      if !LifecycleValid(n) then Err(EatPsaClaim) else Ok(Num(n), e)
    case NoMeasurements =>
      var (n, e) :- DecodeUint(s, j, true);
      if n != 1 then Err(EatPsaClaim) else Ok(Num(n), e)
    case CertRef =>
      var (d, e) :- DecodeTstr(s, j, true);
      Ok(Str(d), e)
    case Vsi =>
      var (d, e) :- DecodeTstr(s, j, true);
      Ok(Str(d), e)
    case _ =>
      var (d, e) :- DecodeBstr(s, j, true);
      Ok(Str(d), e)
  }

  /** `k` more entries of the map that starts at `m`, after the entries `ps`. */
  function Pairs(shape: Shape, s: seq<byte>, m: nat, i: nat, k: nat, ps: seq<Pair>): (r: Dec<seq<Pair>>)
    requires m <= i <= |s|
    ensures r.Ok? ==> i + 2 * k <= r.next <= |s| && |r.value| == |ps| + k
    decreases if shape.ClaimsMap? then 6 else 1, k
  {
    if k == 0 then Ok(ps, i)
    else
      var (key, j) :- DecodeKey(s, i);
      var (duplicate, _) :- HasPrior(s[m..], i - m, key);
      if duplicate then Err(EatPsaClaim)
      else
        var (v, e) :- ValueAt(shape, s, j, key, ps);
        Pairs(shape, s, m, e, k - 1, ps + [Pair(key, v)])
  }

  function ComponentAt(s: seq<byte>, i: nat): (r: Dec<Component>)
    ensures r.Ok? ==> i < r.next <= |s|
    decreases 2, 0
  {
    var (n, j) :- DecodeMap(s, i, true);
    if n > MAX_COMPONENT_CLAIMS then Err(EatPsaClaim)
    else
      var (ps, e) :- Pairs(ComponentMap, s, i, j, n, []);
      var c := ComponentOf(ps);
      if !IsHash(c.value) || !IsHash(c.signer) then Err(EatPsaClaim) else Ok(c, e)
  }

  /** `n` more components, after the components `cs`. */
  function ComponentsFrom(s: seq<byte>, i: nat, n: nat, cs: seq<Component>): (r: Dec<seq<Component>>)
    ensures r.Ok? ==> i + n <= r.next && (n > 0 ==> r.next <= |s|) && |r.value| == |cs| + n
    decreases 3, n
  {
    if n == 0 then Ok(cs, i)
    else
      var (c, e) :- ComponentAt(s, i);
      ComponentsFrom(s, e, n - 1, cs + [c])
  }

  function ComponentsAt(s: seq<byte>, i: nat): (r: Dec<seq<Component>>)
    ensures r.Ok? ==> i < r.next <= |s| && 0 < |r.value| <= MAX_COMPONENTS
    decreases 4, 0
  {
    if i >= |s| then Err(InvalidArg)
    else
      var (n, j) :- DecodeArray(s, i, true);
      if n == 0 || n > MAX_COMPONENTS then Err(EatPsaClaim) else ComponentsFrom(s, j, n, [])
  }

  // ----- The token -----

  function FindClaim(ps: seq<Pair>, claim: Claim): (v: Option<Value>) {
    if ps == [] then None
    else if KnownOf(ps[0].key).Some? && KnownOf(ps[0].key).value.claim == claim then Some(ps[0].value)
    else FindClaim(ps[1..], claim)
  }

  function StrClaim(ps: seq<Pair>, claim: Claim): (v: Option<seq<byte>>) {
    match FindClaim(ps, claim) { case Some(Str(d)) => Some(d) case _ => None }
  }

  function NumClaim(ps: seq<Pair>, claim: Claim): (n: int) {
    match FindClaim(ps, claim) { case Some(Num(n)) => n case _ => 0 }
  }

  /** What the caller gets: absent claims are none, or zero. */
  datatype Token = Token(legacy: bool, nonce: Option<seq<byte>>, ueid: Option<seq<byte>>, implementation: Option<seq<byte>>,
                         bootSeed: Option<seq<byte>>, certRef: Option<seq<byte>>, vsi: Option<seq<byte>>, clientId: int,
                         lifecycle: int, components: Option<seq<byte>>, count: nat, noMeasurements: bool)

  function TokenOf(ps: seq<Pair>, legacy: bool): (t: Token)
    ensures t.legacy == legacy
  {
    var parts := FindClaim(ps, Components);
    Token(legacy, StrClaim(ps, Nonce), StrClaim(ps, Ueid), StrClaim(ps, Implementation), StrClaim(ps, BootSeed),
          StrClaim(ps, CertRef), StrClaim(ps, Vsi), NumClaim(ps, ClientId), NumClaim(ps, Lifecycle),
          if parts.Some? && parts.value.Parts? then Some(parts.value.raw) else None,
          if parts.Some? && parts.value.Parts? then |parts.value.cs| else 0,
          NumClaim(ps, NoMeasurements) == 1)
  }

  const CURRENT_REQUIRED := {Nonce, Ueid, Profile, ClientId, Lifecycle, Implementation, Components}
  const LEGACY_REQUIRED := {Nonce, Ueid, ClientId, Lifecycle, Implementation, BootSeed}

  /** All of the claims were read. */
  predicate AllSeen(ps: seq<Pair>, claims: set<Claim>) {
    forall c :: c in claims ==> Seen(ps, c)
  }

  predicate Digit(b: byte) {
    0x30 <= b <= 0x39
  }

  /** Thirteen digits, and for the current profile a dash and five digits. */
  predicate CertRefValid(d: seq<byte>, legacy: bool) {
    && |d| == (if legacy then 13 else 19)
    && forall k :: 0 <= k < |d| ==> if !legacy && k == 13 then d[k] == 0x2D else Digit(d[k])
  }

  /** The checks of lengths and of the certification reference. */
  predicate FieldsValid(t: Token) {
    && t.nonce.Some? && (|t.nonce.value| == 32 || |t.nonce.value| == 48 || |t.nonce.value| == 64)
    && t.ueid.Some? && |t.ueid.value| == 33 && t.ueid.value[0] == 1
    && t.implementation.Some? && |t.implementation.value| == 32
    && (if t.legacy then t.bootSeed.Some? && |t.bootSeed.value| == 32
        else t.bootSeed.Some? ==> 8 <= |t.bootSeed.value| <= 32)
    && (t.certRef.Some? ==> CertRefValid(t.certRef.value, t.legacy))
  }

  /** The checks of the whole map. */
  function MapStatus(ps: seq<Pair>): (r: Status) {
    var current, legacy := Mixed(ps, true), Mixed(ps, false);
    if current == legacy then Fail(EatPsaProfile)
    else if current then if AllSeen(ps, CURRENT_REQUIRED) then Success else Fail(EatPsaClaim)
    else if !AllSeen(ps, LEGACY_REQUIRED) || Seen(ps, Components) == Seen(ps, NoMeasurements) then Fail(EatPsaClaim)
    else Success
  }

  /** The entries of the claims map. */
  function ClaimPairs(s: seq<byte>): (r: Dec<seq<Pair>>)
    ensures r.Ok? ==> r.next <= |s|
  {
    var (n, j) :- DecodeMap(s, 0, true);
    if n > MAX_CLAIMS then Err(EatPsaClaim) else Pairs(ClaimsMap, s, 0, j, n, [])
  }

  /** `wolfCose_EatPsaDecodeClaims`. */
  function DecodeClaims(s: seq<byte>): (r: Dec<Token>)
    ensures r.Ok? ==> r.next == |s|
  {
    var (ps, e) :- ClaimPairs(s);
    if e != |s| then Err(EatPsaClaim)
    else if MapStatus(ps).Fail? then Err(MapStatus(ps).error)
    else
      var t := TokenOf(ps, Mixed(ps, false));
      if !FieldsValid(t) then Err(EatPsaClaim) else Ok(t, e)
  }

  /** `wc_CoseEatPsaToken_ForEachComponent`: the components that are handed out. */
  function StoredComponents(t: Token): (r: Dec<seq<Component>>) {
    if t.noMeasurements then Ok([], 0)
    else if t.components.None? then Err(InvalidArg)
    else
      var (n, j) :- DecodeArray(t.components.value, 0, true);
      if n != t.count then Err(EatPsaClaim)
      else
        var (cs, e) :- ComponentsFrom(t.components.value, j, n, []);
        if e != |t.components.value| then Err(EatPsaClaim) else Ok(cs, e)
  }
}
