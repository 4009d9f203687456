/**
 What the labels of an attestation token mean (section 4 of RFC 9783): every field of an accepted token is
 the value under its label, a number, and the labels that must be there are told by number, for the current
 profile and for the legacy one.
 */
module EatMeaning {
  import opened Wire
  import opened Cbor
  import opened Eat
  import opened EatLemmas

  /** The number under a label, or zero. */
  function NumOf(ps: seq<Pair>, n: int): (v: int) {
    if ps == [] then 0
    else if Number(ps[0].key) == Some(n) && ps[0].value.Num? then ps[0].value.n
    else NumOf(ps[1..], n)
  }

  /** The components under a label, and the bytes they were read from. */
  function PartsOf(ps: seq<Pair>, n: int): (v: Option<Value>) {
    if ps == [] then None
    else if Number(ps[0].key) == Some(n) && ps[0].value.Parts? then Some(ps[0].value)
    else PartsOf(ps[1..], n)
  }

  /** There is an entry with this label. */
  predicate Has(ps: seq<Pair>, n: int) {
    exists k :: 0 <= k < |ps| && Number(ps[k].key) == Some(n)
  }

  /** The label of a claim in a namespace. */
  function LabelFor(claim: Claim, legacy: bool): (n: int)
    requires claim == NoMeasurements ==> legacy
  {
    match claim
    case Nonce => if legacy then -75008 else 10
    case Ueid => if legacy then -75009 else 256
    case Profile => if legacy then -75000 else 265
    case BootSeed => if legacy then -75004 else 268
    case ClientId => if legacy then -75001 else 2394
    case Lifecycle => if legacy then -75002 else 2395
    case Implementation => if legacy then -75003 else 2396
    case CertRef => if legacy then -75005 else 2398
    case Components => if legacy then -75006 else 2399
    case NoMeasurements => -75007
    case Vsi => if legacy then -75010 else 2400
  }

  lemma LabelNames(key: MapKey, claim: Claim, legacy: bool)
    requires claim == NoMeasurements ==> legacy
    ensures KnownOf(key) == Some(Known(claim, legacy)) <==> Number(key) == Some(LabelFor(claim, legacy))
  {
  }

  /** All known labels are of one namespace. */
  predicate Only(ps: seq<Pair>, legacy: bool) {
    forall k :: 0 <= k < |ps| && KnownOf(ps[k].key).Some? ==> KnownOf(ps[k].key).value.legacy == legacy
  }

  lemma OnlyTail(ps: seq<Pair>, legacy: bool)
    requires ps != [] && Only(ps, legacy) && OneNamespace(ps)
    ensures Only(ps[1..], legacy) && OneNamespace(ps[1..])
    ensures forall k :: 0 <= k < |ps[1..]| && KnownOf(ps[0].key).Some? && KnownOf(ps[1..][k].key).Some? ==>
      KnownOf(ps[1..][k].key).value.claim != KnownOf(ps[0].key).value.claim
  {
    hide KnownOf;
    assert forall k :: 0 <= k < |ps[1..]| ==> ps[1..][k] == ps[k + 1];
  }

  lemma {:induction false} NoneUnder(ps: seq<Pair>, claim: Claim, legacy: bool)
    requires claim == NoMeasurements ==> legacy
    requires forall k :: 0 <= k < |ps| ==> KnownOf(ps[k].key) != Some(Known(claim, legacy))
    ensures StrOf(ps, LabelFor(claim, legacy)) == None && NumOf(ps, LabelFor(claim, legacy)) == 0
    ensures PartsOf(ps, LabelFor(claim, legacy)) == None
  {
    hide KnownOf, Number, LabelFor;
    if ps != [] {
      LabelNames(ps[0].key, claim, legacy);
      NoneUnder(ps[1..], claim, legacy);
    }
  }

  /** Looking a claim up by name is looking it up by its label. */
  lemma {:induction false} ByLabel(ps: seq<Pair>, claim: Claim, legacy: bool)
    requires (claim == NoMeasurements ==> legacy) && Only(ps, legacy) && OneNamespace(ps)
    ensures var v, n := FindClaim(ps, claim), LabelFor(claim, legacy);
      && StrClaim(ps, claim) == StrOf(ps, n) && NumClaim(ps, claim) == NumOf(ps, n)
      && (if v.Some? && v.value.Parts? then PartsOf(ps, n) == v else PartsOf(ps, n) == None)
  {
    hide KnownOf, Number, LabelFor, OneNamespace;
    if ps != [] {
      LabelNames(ps[0].key, claim, legacy);
      OnlyTail(ps, legacy);
      if KnownOf(ps[0].key) == Some(Known(claim, legacy)) {
        NoneUnder(ps[1..], claim, legacy);
      } else {
        ByLabel(ps[1..], claim, legacy);
      }
    }
  }

  lemma SeenIsHas(ps: seq<Pair>, claim: Claim, legacy: bool)
    requires (claim == NoMeasurements ==> legacy) && Only(ps, legacy)
    ensures Seen(ps, claim) <==> Has(ps, LabelFor(claim, legacy))
  {
    hide KnownOf, Number, LabelFor;
    forall k | 0 <= k < |ps|
      ensures KnownOf(ps[k].key).Some? && KnownOf(ps[k].key).value.claim == claim
         <==> Number(ps[k].key) == Some(LabelFor(claim, legacy))
    {
      LabelNames(ps[k].key, claim, legacy);
    }
  }

  // ----- What an accepted token says -----

  /** The token of the legacy profile that these entries say. */
  function LegacyToken(ps: seq<Pair>): (t: Token) {
    var parts := PartsOf(ps, -75006);
    Token(true, StrOf(ps, -75008), StrOf(ps, -75009), StrOf(ps, -75003), StrOf(ps, -75004), StrOf(ps, -75005),
          StrOf(ps, -75010), NumOf(ps, -75001), NumOf(ps, -75002),
          if parts.Some? && parts.value.Parts? then Some(parts.value.raw) else None,
          if parts.Some? && parts.value.Parts? then |parts.value.cs| else 0, NumOf(ps, -75007) == 1)
  }

  /** The token of the current profile that these entries say. */
  function CurrentToken(ps: seq<Pair>): (t: Token) {
    var parts := PartsOf(ps, 2399);
    Token(false, StrOf(ps, 10), StrOf(ps, 256), StrOf(ps, 2396), StrOf(ps, 268), StrOf(ps, 2398), StrOf(ps, 2400),
          NumOf(ps, 2394), NumOf(ps, 2395),
          if parts.Some? && parts.value.Parts? then Some(parts.value.raw) else None,
          if parts.Some? && parts.value.Parts? then |parts.value.cs| else 0, false)
  }

  /** What the legacy profile requires: client, lifecycle, implementation, boot seed, nonce and UEID, and
      either components or the statement that there are none. */
  predicate LegacyRequired(ps: seq<Pair>) {
    && Has(ps, -75001) && Has(ps, -75002) && Has(ps, -75003) && Has(ps, -75004) && Has(ps, -75008) && Has(ps, -75009)
    && Has(ps, -75006) != Has(ps, -75007)
  }

  /** What the current profile requires: nonce, UEID, profile, client, lifecycle, implementation and
      components. */
  predicate CurrentRequired(ps: seq<Pair>) {
    && Has(ps, 10) && Has(ps, 256) && Has(ps, 265) && Has(ps, 2394) && Has(ps, 2395) && Has(ps, 2396) && Has(ps, 2399)
  }

  lemma TokenIs(ps: seq<Pair>, legacy: bool)
    requires Only(ps, legacy) && OneNamespace(ps)
    ensures TokenOf(ps, legacy) == if legacy then LegacyToken(ps) else CurrentToken(ps)
  {
    hide FindClaim, StrClaim, NumClaim, StrOf, NumOf, PartsOf, Only, OneNamespace;
    ByLabel(ps, Nonce, legacy);
    ByLabel(ps, Ueid, legacy);
    ByLabel(ps, Implementation, legacy);
    ByLabel(ps, BootSeed, legacy);
    ByLabel(ps, CertRef, legacy);
    ByLabel(ps, Vsi, legacy);
    ByLabel(ps, ClientId, legacy);
    ByLabel(ps, Lifecycle, legacy);
    ByLabel(ps, Components, legacy);
    if legacy {
      ByLabel(ps, NoMeasurements, legacy);
    } else {
      NothingStated(ps);
    }
  }

  lemma {:induction false} NothingStated(ps: seq<Pair>)
    requires Only(ps, false)
    ensures NumClaim(ps, NoMeasurements) == 0
  {
    hide Number;
    if ps != [] {
      assert Only(ps[1..], false);
      NothingStated(ps[1..]);
      OnlyLegacy(ps[0].key);
    }
  }

  lemma OnlyLegacy(key: MapKey)
    ensures KnownOf(key).Some? && KnownOf(key).value.claim == NoMeasurements ==> KnownOf(key).value.legacy
  {
  }

  lemma NamespaceIs(ps: seq<Pair>, legacy: bool)
    ensures !Mixed(ps, legacy) <==> Only(ps, legacy)
  {
    hide KnownOf;
  }

  lemma SomeKnown(ps: seq<Pair>, legacy: bool)
    requires Only(ps, legacy)
    ensures Mixed(ps, !legacy) <==> exists k :: 0 <= k < |ps| && KnownOf(ps[k].key).Some?
  {
    hide KnownOf;
  }

  lemma RequiredIs(ps: seq<Pair>, legacy: bool)
    requires Only(ps, legacy)
    ensures legacy ==> (LegacyRequired(ps) <==> AllSeen(ps, LEGACY_REQUIRED) && Seen(ps, Components) != Seen(ps, NoMeasurements))
    ensures !legacy ==> (CurrentRequired(ps) <==> AllSeen(ps, CURRENT_REQUIRED))
  {
    hide Seen, Has, Only;
    SeenIsHas(ps, Nonce, legacy);
    SeenIsHas(ps, Ueid, legacy);
    SeenIsHas(ps, Profile, legacy);
    SeenIsHas(ps, BootSeed, legacy);
    SeenIsHas(ps, ClientId, legacy);
    SeenIsHas(ps, Lifecycle, legacy);
    SeenIsHas(ps, Implementation, legacy);
    SeenIsHas(ps, Components, legacy);
    if legacy {
      SeenIsHas(ps, NoMeasurements, legacy);
    }
  }

  /** A nonce of 32, 48 or 64 bytes; a UEID of 33 that begins with 1; an implementation of 32; a boot seed of 32,
      which the current profile may leave out or give 8 to 32; and a certification reference of thirteen digits,
      in the current profile with a dash and five more. */
  predicate TokenSizes(t: Token) {
    && t.nonce.Some? && (|t.nonce.value| == 32 || |t.nonce.value| == 48 || |t.nonce.value| == 64)
    && t.ueid.Some? && |t.ueid.value| == 33 && t.ueid.value[0] == 1
    && t.implementation.Some? && |t.implementation.value| == 32
    && (match t.bootSeed { case None => !t.legacy case Some(b) => if t.legacy then |b| == 32 else 8 <= |b| <= 32 })
    && (match t.certRef
        case None => true
        case Some(r) =>
          if t.legacy then |r| == 13 && AllDigits(r)
          else |r| == 19 && AllDigits(r[..13]) && r[13] == 0x2D && AllDigits(r[14..]))
  }

  predicate AllDigits(r: seq<byte>) {
    forall k :: 0 <= k < |r| ==> 0x30 <= r[k] <= 0x39
  }

  lemma ReferenceIs(d: seq<byte>, legacy: bool)
    ensures CertRefValid(d, legacy)
       <==> if legacy then |d| == 13 && AllDigits(d)
            else |d| == 19 && AllDigits(d[..13]) && d[13] == 0x2D && AllDigits(d[14..])
  {
    if !legacy && |d| == 19 {
      assert forall k :: 0 <= k < 13 ==> d[..13][k] == d[k];
      assert forall k :: 14 <= k < 19 ==> d[14..][k - 14] == d[k];
    }
  }

  lemma SizesAre(t: Token)
    ensures FieldsValid(t) <==> TokenSizes(t)
  {
    hide CertRefValid, AllDigits;
    if t.certRef.Some? {
      ReferenceIs(t.certRef.value, t.legacy);
    }
  }

  /** The entries of one namespace, complete, and what they say in order. */
  predicate Says(ps: seq<Pair>, legacy: bool) {
    && Only(ps, legacy)
    && (if legacy then LegacyRequired(ps) && TokenSizes(LegacyToken(ps)) else CurrentRequired(ps) && TokenSizes(CurrentToken(ps)))
  }

  /** A token is accepted if and only if its entries can be read to its end and they say a complete token of the
      one or of the other profile; and then its fields are the values under their labels. */
  lemma AcceptsExactly(s: seq<byte>)
    requires |s| <= SIZE_MAX
    ensures var ps, r := ClaimPairs(s), DecodeClaims(s);
      && (r.Ok? <==> ps.Ok? && ps.next == |s| && (Says(ps.value, true) || Says(ps.value, false)))
      && (r.Ok? ==>
            && Says(ps.value, r.value.legacy)
            && r.value == if r.value.legacy then LegacyToken(ps.value) else CurrentToken(ps.value))
  {
    hide ClaimPairs, FieldsValid, TokenSizes, TokenOf, LegacyToken, CurrentToken, LegacyRequired, CurrentRequired, AllSeen, Seen,
         Mixed, Only;
    var ps := ClaimPairs(s);
    if ps.Ok? {
      var ats := ClaimsWalked(s);
      WalkedOneNamespace(s, ps.value, ats);
      Namespaces(ps.value, true);
      Namespaces(ps.value, false);
    }
  }

  /** What one namespace comes to. */
  lemma Namespaces(ps: seq<Pair>, legacy: bool)
    requires OneNamespace(ps)
    ensures Only(ps, legacy) <==> !Mixed(ps, legacy)
    ensures Only(ps, legacy) ==>
      && TokenOf(ps, legacy) == (if legacy then LegacyToken(ps) else CurrentToken(ps))
      && (FieldsValid(TokenOf(ps, legacy)) <==> TokenSizes(TokenOf(ps, legacy)))
      && (legacy ==> (LegacyRequired(ps)
                      <==> AllSeen(ps, LEGACY_REQUIRED) && Seen(ps, Components) != Seen(ps, NoMeasurements)))
      && (!legacy ==> (CurrentRequired(ps) <==> AllSeen(ps, CURRENT_REQUIRED)))
    ensures Only(ps, legacy) && (LegacyRequired(ps) || CurrentRequired(ps)) ==> Mixed(ps, !legacy)
  {
    hide FieldsValid, TokenSizes, TokenOf, LegacyToken, CurrentToken, LegacyRequired, CurrentRequired, AllSeen, Seen, Mixed, Only,
         OneNamespace;
    NamespaceIs(ps, legacy);
    if Only(ps, legacy) {
      TokenIs(ps, legacy);
      SizesAre(TokenOf(ps, legacy));
      RequiredIs(ps, legacy);
      if LegacyRequired(ps) || CurrentRequired(ps) {
        RequiredKnown(ps);
        SomeKnown(ps, legacy);
      }
    }
  }

  lemma RequiredKnown(ps: seq<Pair>)
    requires LegacyRequired(ps) || CurrentRequired(ps)
    ensures exists k :: 0 <= k < |ps| && KnownOf(ps[k].key).Some?
  {
    hide Number, KnownOf;
    var n := if LegacyRequired(ps) then -75001 else 2394;
    var k :| 0 <= k < |ps| && Number(ps[k].key) == Some(n);
    LabelNames(ps[k].key, ClientId, n < 0);
  }

  // ----- What the values are -----

  predicate IsLegacyLabel(n: int) {
    -75010 <= n <= -75000
  }

  predicate IsCurrentLabel(n: int) {
    || n == 10 || n == 256 || n == 265 || n == 268 || n == 2394 || n == 2395 || n == 2396 || n == 2398 || n == 2399
    || n == 2400
  }

  predicate BytesStand(s: seq<byte>, j: nat, e: nat, v: Value) {
    var r := DecodeBstr(s, j, true);
    r.Ok? && r.next == e && v == Str(r.value)
  }

  predicate WordsStand(s: seq<byte>, j: nat, e: nat, v: Value) {
    var r := DecodeTstr(s, j, true);
    r.Ok? && r.next == e && v == Str(r.value)
  }

  /** A number of 32 bits other than zero. */
  predicate ClientStands(s: seq<byte>, j: nat, e: nat, v: Value) {
    var r := DecodeInt(s, j, true);
    r.Ok? && r.next == e && v == Num(r.value) && r.value != 0 && -0x8000_0000 <= r.value <= 0x7FFF_FFFF
  }

  /** A number of 16 bits: a state of 0 to 6, a zero, and any byte. */
  predicate StateStands(s: seq<byte>, j: nat, e: nat, v: Value) {
    var r := DecodeUint(s, j, true);
    r.Ok? && r.next == e && v == Num(r.value) && r.value / 0x1000 <= 6 && r.value % 0x1000 <= 0xFF
  }

  predicate OneStands(s: seq<byte>, j: nat, e: nat, v: Value) {
    var r := DecodeUint(s, j, true);
    r.Ok? && r.next == e && v == Num(1) && r.value == 1
  }

  predicate ListStands(s: seq<byte>, j: nat, e: nat, v: Value) {
    var r := ComponentsAt(s, j);
    j <= e <= |s| && r.Ok? && r.next == e && v == Parts(r.value, s[j..e])
  }

  /** The text "tag:psacertified.org,2023:psa#tfm". */
  const CURRENT_TEXT: seq<byte> :=
    [0x74, 0x61, 0x67, 0x3A, 0x70, 0x73, 0x61, 0x63, 0x65, 0x72, 0x74, 0x69, 0x66, 0x69, 0x65, 0x64, 0x2E, 0x6F, 0x72,
     0x67, 0x2C, 0x32, 0x30, 0x32, 0x33, 0x3A, 0x70, 0x73, 0x61, 0x23, 0x74, 0x66, 0x6D]

  /** The text "PSA_IOT_PROFILE_1". */
  const LEGACY_TEXT: seq<byte> :=
    [0x50, 0x53, 0x41, 0x5F, 0x49, 0x4F, 0x54, 0x5F, 0x50, 0x52, 0x4F, 0x46, 0x49, 0x4C, 0x45, 0x5F, 0x31]

  /** The value under a label of either profile. */
  predicate ClaimStands(s: seq<byte>, j: nat, e: nat, n: int, v: Value) {
    if n == 265 then WordsStand(s, j, e, v) && v == Str(CURRENT_TEXT)
    else if n == -75000 then WordsStand(s, j, e, v) && v == Str(LEGACY_TEXT)
    else if n == 2394 || n == -75001 then ClientStands(s, j, e, v)
    else if n == 2395 || n == -75002 then StateStands(s, j, e, v)
    else if n == 2398 || n == 2400 || n == -75005 || n == -75010 then WordsStand(s, j, e, v)
    else if n == 2399 || n == -75006 then ListStands(s, j, e, v)
    else if n == -75007 then OneStands(s, j, e, v)
    else BytesStand(s, j, e, v)
  }

  /** Before a label: none of the other namespace, and not the same one. */
  predicate MayFollow(ps: seq<Pair>, n: int) {
    forall k :: 0 <= k < |ps| ==>
      match Number(ps[k].key)
      case None => true
      case Some(m) => m != n && (if IsLegacyLabel(n) then !IsCurrentLabel(m) else !IsLegacyLabel(m))
  }

  lemma KnownLabels(key: MapKey)
    ensures KnownOf(key).Some? <==> Number(key).Some? && (IsLegacyLabel(Number(key).value) || IsCurrentLabel(Number(key).value))
    ensures KnownOf(key).Some? ==> (KnownOf(key).value.legacy <==> IsLegacyLabel(Number(key).value))
    ensures KnownOf(key).Some? ==> (KnownOf(key).value.claim == NoMeasurements ==> KnownOf(key).value.legacy)
    ensures forall n :: !(IsLegacyLabel(n) && IsCurrentLabel(n))
  {
  }

  lemma FollowsExactly(ps: seq<Pair>, key: MapKey)
    requires KnownOf(key).Some?
    ensures MayFollow(ps, Number(key).value)
       <==> !Mixed(ps, KnownOf(key).value.legacy) && !Seen(ps, KnownOf(key).value.claim)
  {
    hide KnownOf, Number, IsLegacyLabel, IsCurrentLabel, LabelFor;
    var k := KnownOf(key).value;
    KnownLabels(key);
    LabelNames(key, k.claim, k.legacy);
    forall i | 0 <= i < |ps|
      ensures
        (match Number(ps[i].key)
         case None => true
         case Some(m) => m != Number(key).value && (if IsLegacyLabel(Number(key).value) then !IsCurrentLabel(m) else !IsLegacyLabel(m)))
        <==> (KnownOf(ps[i].key).Some? ==> KnownOf(ps[i].key).value.legacy == k.legacy && KnownOf(ps[i].key).value.claim != k.claim)
    {
      KnownLabels(ps[i].key);
      LabelNames(ps[i].key, k.claim, k.legacy);
    }
  }

  predicate IsNumber(claim: Claim) {
    claim == ClientId || claim == Lifecycle || claim == NoMeasurements
  }

  lemma NumberExactly(s: seq<byte>, j: nat, key: MapKey, v: Value, e: nat)
    requires KnownOf(key).Some? && IsNumber(KnownOf(key).value.claim)
    ensures ScalarClaim(s, j, KnownOf(key).value) == Ok(v, e) <==> ClaimStands(s, j, e, Number(key).value, v)
  {
    hide DecodeInt, DecodeUint, KnownOf, Number, LifecycleValid, BytesStand, WordsStand;
    var k := KnownOf(key).value;
    KnownLabels(key);
    LabelNames(key, k.claim, k.legacy);
    var r := DecodeUint(s, j, true);
    if r.Ok? {
      LifecycleIs(r.value);
    }
  }

  lemma StringExactly(s: seq<byte>, j: nat, key: MapKey, v: Value, e: nat)
    requires KnownOf(key).Some? && KnownOf(key).value.claim != Components && !IsNumber(KnownOf(key).value.claim)
    ensures ScalarClaim(s, j, KnownOf(key).value) == Ok(v, e) <==> ClaimStands(s, j, e, Number(key).value, v)
  {
    hide DecodeBstr, DecodeTstr, KnownOf, Number, TfmProfile, LegacyProfile, ClientStands, StateStands, OneStands, ListStands,
         CURRENT_TEXT, LEGACY_TEXT;
    var k := KnownOf(key).value;
    KnownLabels(key);
    LabelNames(key, k.claim, k.legacy);
    ProfileTexts();
  }

  lemma ScalarExactly(s: seq<byte>, j: nat, key: MapKey, v: Value, e: nat)
    requires KnownOf(key).Some? && KnownOf(key).value.claim != Components
    ensures ScalarClaim(s, j, KnownOf(key).value) == Ok(v, e) <==> ClaimStands(s, j, e, Number(key).value, v)
  {
    hide KnownOf, Number, ScalarClaim, ClaimStands;
    if IsNumber(KnownOf(key).value.claim) {
      NumberExactly(s, j, key, v, e);
    } else {
      StringExactly(s, j, key, v, e);
    }
  }

  lemma ProfileTexts()
    ensures TfmProfile() == CURRENT_TEXT && LegacyProfile() == LEGACY_TEXT
  {
  }

  lemma LifecycleIs(n: nat)
    ensures LifecycleValid(n) <==> n / 0x1000 <= 6 && n % 0x1000 <= 0xFF
  {
    var q, r := n / 0x1000, n % 0x1000;
    assert n == 0x100 * (0x10 * q + r / 0x100) + r % 0x100;
    assert n / 0x100 == 0x10 * q + r / 0x100;
  }

  /** The value of an entry is taken if and only if its label is not known and any item stands there, or its label may
      follow the ones before and the value is of its type. */
  lemma ClaimExactly(s: seq<byte>, j: nat, key: MapKey, ps: seq<Pair>, v: Value, e: nat)
    ensures ValueAt(ClaimsMap, s, j, key, ps) == Ok(v, e)
       <==> if Number(key).Some? && (IsLegacyLabel(Number(key).value) || IsCurrentLabel(Number(key).value)) then
              MayFollow(ps, Number(key).value) && ClaimStands(s, j, e, Number(key).value, v)
            else v == Skipped && Skip(s, j, true).Ok? && Skip(s, j, true).next == e
  {
    hide KnownOf, Number, Mixed, Seen, ScalarClaim, ComponentsAt, Skip, IsLegacyLabel, IsCurrentLabel, MayFollow, ClaimStands;
    KnownLabels(key);
    if KnownOf(key).Some? {
      FollowsExactly(ps, key);
      if KnownOf(key).value.claim == Components {
        ListLabel(s, j, key, v, e);
      } else {
        ScalarExactly(s, j, key, v, e);
      }
    }
  }

  lemma ListLabel(s: seq<byte>, j: nat, key: MapKey, v: Value, e: nat)
    requires KnownOf(key).Some? && KnownOf(key).value.claim == Components
    ensures ClaimStands(s, j, e, Number(key).value, v) <==> ListStands(s, j, e, v)
  {
    hide KnownOf, Number, ListStands;
    LabelNames(key, Components, KnownOf(key).value.legacy);
  }
}
