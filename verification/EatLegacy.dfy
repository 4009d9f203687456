/**
 Reading a token of the legacy profile PSA_IOT_PROFILE_1 (section 4.6 of RFC 9783): a map of the labels
 -75000 to -75010 with the values of a record parses to that record.
 */
module EatLegacy {
  import opened Wire
  import opened Utf8
  import opened Cbor
  import opened CborRoundTrip
  import opened Header
  import opened CountersignLists
  import opened CountersignAdd
  import opened Eat
  import opened EatLemmas
  import opened EatDepth
  import opened EatRoundTrip
  import opened EatMeaning

  /** The claims of a legacy token; without components it states that there are none. */
  datatype LegacyClaims = LegacyClaims(profile: bool, clientId: int, lifecycle: nat, implementation: Bytes, bootSeed: Bytes,
                                       certRef: Option<Bytes>, components: seq<Measured>, nonce: Bytes, ueid: Bytes,
                                       vsi: Option<Bytes>)

  /** A claim as it stands in the map: its label, the bytes of its value, and what a reader makes of it. */
  datatype Labelled = Labelled(lbl: i64, bytes: seq<byte>, value: Value)

  function OptionalClaim(there: bool, c: Labelled): (o: Option<Labelled>) {
    if there then Some(c) else None
  }

  function OrEmpty(d: Option<Bytes>): (b: Bytes) {
    match d { case None => [] case Some(b) => b }
  }

  predicate Writeable(c: LegacyClaims) {
    InInt32(c.clientId) && c.lifecycle <= 0xFFFF && |c.components| < U64_BOUND
  }

  /** The claims of a record, each under its label. */
  function LegacyFields(c: LegacyClaims): (os: seq<Option<Labelled>>)
    requires Writeable(c)
    ensures |os| == 11
  {
    [OptionalClaim(c.profile, Labelled(-75000, EncodeTstr(LEGACY_TEXT), Str(LEGACY_TEXT))),
     Some(Labelled(-75001, EncodeInt(c.clientId), Num(c.clientId))),
     Some(Labelled(-75002, EncodeInt(c.lifecycle), Num(c.lifecycle))),
     Some(Labelled(-75003, EncodeBstr(c.implementation), Str(c.implementation))),
     Some(Labelled(-75004, EncodeBstr(c.bootSeed), Str(c.bootSeed))),
     OptionalClaim(c.certRef.Some?, Labelled(-75005, EncodeTstr(OrEmpty(c.certRef)), Str(OrEmpty(c.certRef)))),
     OptionalClaim(c.components != [],
                   Labelled(-75006, ComponentsBytes(c.components), Parts(ReadAll(c.components), ComponentsBytes(c.components)))),
     OptionalClaim(c.components == [], Labelled(-75007, [0x01], Num(1))),
     Some(Labelled(-75008, EncodeBstr(c.nonce), Str(c.nonce))),
     Some(Labelled(-75009, EncodeBstr(c.ueid), Str(c.ueid))),
     OptionalClaim(c.vsi.Some?, Labelled(-75010, EncodeTstr(OrEmpty(c.vsi)), Str(OrEmpty(c.vsi))))]
  }

  function ClaimsInRow(fs: seq<Labelled>): (b: seq<byte>) {
    if fs == [] then [] else EncodeInt(fs[0].lbl) + fs[0].bytes + ClaimsInRow(fs[1..])
  }

  /** The map of a record. */
  function LegacyMap(c: LegacyClaims): (s: seq<byte>)
    requires Writeable(c)
  {
    var fs := Present(LegacyFields(c));
    EncodeHead(MAP, |fs|) + ClaimsInRow(fs)
  }

  /** The record is one that the profile allows. */
  predicate LegacyValid(c: LegacyClaims) {
    && InInt32(c.clientId) && c.clientId != 0 && LifecycleValid(c.lifecycle)
    && |c.implementation| == 32 && |c.bootSeed| == 32
    && (|c.nonce| == 32 || |c.nonce| == 48 || |c.nonce| == 64)
    && |c.ueid| == 33 && c.ueid[0] == 1
    && (c.certRef.Some? ==> |c.certRef.value| == 13 && AllDigits(c.certRef.value))
    && (c.vsi.Some? ==> IsUtf8(c.vsi.value))
    && |c.components| <= MAX_COMPONENTS && |c.components| < U64_BOUND && AllMeasured(c.components)
  }

  // ----- One claim -----

  function KeyOf(lbl: i64): (key: MapKey) {
    if lbl >= 0 then Unsigned(lbl) else Negative(-1 - lbl)
  }

  lemma LabelStands(lbl: i64, s: seq<byte>, i: nat)
    requires SameSlice(EncodeInt(lbl), 0, s, i, |EncodeInt(lbl)|)
    ensures DecodeKey(s, i) == Ok(KeyOf(lbl), i + |EncodeInt(lbl)|)
  {
    hide DecodeHead, EncodeHead;
    if lbl >= 0 {
      HeadRoundTrip(UINT, lbl, true, s, i);
    } else {
      HeadRoundTrip(NEGINT, -1 - lbl, true, s, i);
    }
  }

  /** The value of a claim is of the type of its label. */
  ghost predicate Allowed(f: Labelled) {
    match f.value
    case Str(d) =>
      && |d| <= SIZE_MAX
      && (if f.lbl == -75000 || f.lbl == -75005 || f.lbl == -75010 then f.bytes == EncodeTstr(d) && IsUtf8(d)
          else (f.lbl == -75003 || f.lbl == -75004 || f.lbl == -75008 || f.lbl == -75009) && f.bytes == EncodeBstr(d))
      && (f.lbl == -75000 ==> d == LEGACY_TEXT)
    case Num(n) =>
      || (f.lbl == -75001 && InInt32(n) && n != 0 && f.bytes == EncodeInt(n))
      || (f.lbl == -75002 && 0 <= n && LifecycleValid(n) && f.bytes == EncodeInt(n))
      || (f.lbl == -75007 && n == 1 && f.bytes == EncodeInt(1))
    case Parts(cs, raw) => f.lbl == -75006 && raw == f.bytes && ReadsAs(raw, cs)
    case Skipped => false
  }

  lemma ProfileTextIs()
    ensures LEGACY_TEXT == LegacyProfile() && IsUtf8(LEGACY_TEXT)
  {
    AsciiText(LEGACY_TEXT, 0);
  }

  /** The claim of a label. */
  function ClaimUnder(lbl: int): (c: Claim) {
    if lbl == -75000 then Profile
    else if lbl == -75001 then ClientId
    else if lbl == -75002 then Lifecycle
    else if lbl == -75003 then Implementation
    else if lbl == -75004 then BootSeed
    else if lbl == -75005 then CertRef
    else if lbl == -75006 then Components
    else if lbl == -75007 then NoMeasurements
    else if lbl == -75008 then Nonce
    else if lbl == -75009 then Ueid
    else Vsi
  }

  lemma LegacyNames(lbl: i64)
    requires -75010 <= lbl <= -75000
    ensures KnownOf(KeyOf(lbl)) == Some(Known(ClaimUnder(lbl), true)) && Number(KeyOf(lbl)) == Some(lbl)
    ensures LabelFor(ClaimUnder(lbl), true) == lbl
  {
  }

  lemma AllowedLabel(f: Labelled)
    requires Allowed(f)
    ensures -75010 <= f.lbl <= -75000
  {
    hide ReadsAs, EncodeString, EncodeInt, IsUtf8;
  }

  /** A claim that may be read is read, and skipped to the same end. */
  lemma ClaimReads(f: Labelled, s: seq<byte>, j: nat, ps: seq<Pair>)
    requires Allowed(f) && SameSlice(f.bytes, 0, s, j, |f.bytes|) && |s| <= SIZE_MAX
    requires !Mixed(ps, true) && !Seen(ps, ClaimUnder(f.lbl))
    ensures ValueAt(ClaimsMap, s, j, KeyOf(f.lbl), ps) == Ok(f.value, j + |f.bytes|)
    ensures Skip(s, j, true) == Ok((), j + |f.bytes|)
  {
    hide DecodeString, EncodeString, IsUtf8, SameSlice, Mixed, Seen, EncodeInt, ComponentsAt, DecodeHead, DecodeInt, DecodeUint,
         LegacyProfile, TfmProfile, Skip, KeyOf, KnownOf;
    AllowedLabel(f);
    LegacyNames(f.lbl);
    ProfileTextIs();
    match f.value
    case Str(d) =>
      StringRead(if f.lbl == -75000 || f.lbl == -75005 || f.lbl == -75010 then TSTR else BSTR, d, s, j);
    case Num(n) =>
      IntRead(n, s, j);
    case Parts(cs, raw) =>
      assert ComponentsAt(s, j) == Ok(cs, j + |raw|);
      StandsThere(raw, s, j);
  }

  // ----- Claims in a row -----

  function PairsFor(fs: seq<Labelled>): (ps: seq<Pair>)
    ensures |ps| == |fs| && forall i :: 0 <= i < |fs| ==> ps[i] == Pair(KeyOf(fs[i].lbl), fs[i].value)
  {
    seq(|fs|, i requires 0 <= i < |fs| => Pair(KeyOf(fs[i].lbl), fs[i].value))
  }

  ghost predicate AllAllowed(fs: seq<Labelled>) {
    && (forall i :: 0 <= i < |fs| ==> Allowed(fs[i]))
    && forall a, b :: 0 <= a < b < |fs| ==> fs[a].lbl != fs[b].lbl
  }

  lemma RowCons(fs: seq<Labelled>)
    requires fs != []
    ensures ClaimsInRow(fs) == EncodeInt(fs[0].lbl) + fs[0].bytes + ClaimsInRow(fs[1..])
  {
    hide EncodeInt;
  }

  /** After the first claims, the next one is of the same namespace and has another name. */
  lemma NextIsNew(fs: seq<Labelled>, k: nat)
    requires AllAllowed(fs) && k < |fs|
    ensures var ps := PairsFor(fs[..k]);
      && !Mixed(ps, true) && !Seen(ps, ClaimUnder(fs[k].lbl))
      && forall j :: 0 <= j < k ==> ps[j].key != KeyOf(fs[k].lbl)
  {
    hide Allowed, KnownOf, ClaimUnder;
    var ps := PairsFor(fs[..k]);
    AllowedLabel(fs[k]);
    LegacyNames(fs[k].lbl);
    forall j | 0 <= j < k
      ensures ps[j].key == KeyOf(fs[j].lbl) && KnownOf(ps[j].key) == Some(Known(ClaimUnder(fs[j].lbl), true))
      ensures ClaimUnder(fs[j].lbl) != ClaimUnder(fs[k].lbl) && ps[j].key != KeyOf(fs[k].lbl)
    {
      AllowedLabel(fs[j]);
      LegacyNames(fs[j].lbl);
    }
  }

  /** None of the first claims is too deep to be skipped. */
  predicate Shallow(s: seq<byte>, ps: seq<Pair>, ats: seq<nat>)
    requires |ats| == |ps| + 1
  {
    forall j :: 0 <= j < |ps| ==> !DeepComponents(s, ps, ats, j)
  }

  lemma ShallowNext(s: seq<byte>, ps: seq<Pair>, ats: seq<nat>, p: Pair, e: nat)
    requires |ats| == |ps| + 1 && Shallow(s, ps, ats) && Skips(s, ats, |ps|)
    ensures Shallow(s, ps + [p], ats + [e])
  {
    hide KnownOf, Skips;
    var qs, bs := ps + [p], ats + [e];
    forall j | 0 <= j < |qs|
      ensures !DeepComponents(s, qs, bs, j)
    {
      SameSkips(s, ats, bs, j);
      if j < |ps| {
        assert !DeepComponents(s, ps, ats, j) && qs[j] == ps[j];
      }
    }
  }

  lemma SameSkips(s: seq<byte>, ats: seq<nat>, bs: seq<nat>, j: nat)
    requires j < |ats| && j < |bs| && ats[j] == bs[j]
    ensures Skips(s, ats, j) <==> Skips(s, bs, j)
  {
    hide DecodeKey, Skip;
  }

  /** Claims in a row are read one after the other. */
  lemma {:induction false} RowRead(fs: seq<Labelled>, k: nat, s: seq<byte>, ats: seq<nat>)
    requires AllAllowed(fs) && k <= |fs| && |ats| == k + 1 && |s| <= SIZE_MAX
    requires var ps := PairsFor(fs[..k]);
      Walked(ClaimsMap, s, ps, ats) && Shallow(s, ps, ats) && ats[k] <= |s| && DecodeMap(s, 0, true) == Ok(|fs|, ats[0])
    requires var r := ClaimsInRow(fs[k..]); SameSlice(r, 0, s, ats[k], |r|)
    ensures Pairs(ClaimsMap, s, 0, ats[k], |fs| - k, PairsFor(fs[..k]))
         == Ok(PairsFor(fs), ats[k] + |ClaimsInRow(fs[k..])|)
    decreases |fs| - k
  {
    hide Pairs, DecodeKey, ValueAt, DecodeMap, Walked, Shallow, Allowed, EncodeInt, ClaimsInRow, SameSlice, Skips, AllAllowed,
         DeepComponents, KeyOf, Skip, ClaimUnder;
    var ps, i := PairsFor(fs[..k]), ats[k];
    if k == |fs| {
      PairsNone(ClaimsMap, s, 0, i, ps);
      NoneInRow(fs);
    } else {
      var f, rest := fs[k], fs[k..];
      var l, r := EncodeInt(f.lbl), ClaimsInRow(fs[k + 1..]);
      RowCons(rest);
      assert rest[0] == f && rest[1..] == fs[k + 1..];
      ThreeParts(l, f.bytes, r);
      var all := ClaimsInRow(rest);
      SameSliceBound(all, 0, s, i, |all|);
      Within(l, all, 0, s, i);
      Within(f.bytes, all, |l|, s, i);
      Within(r, all, |l| + |f.bytes|, s, i);
      LabelStands(f.lbl, s, i);
      NextIsNew(fs, k);
      IsAllowed(fs, k);
      ClaimReads(f, s, i + |l|, ps);
      var p, e := Pair(KeyOf(f.lbl), f.value), i + |l| + |f.bytes|;
      NothingDeep(s, ps, ats);
      ReadClaim(s, ps, ats, |fs|, |fs| - k, p, e);
      SkipsNow(s, ats, k);
      ShallowNext(s, ps, ats, p, e);
      assert PairsFor(fs[..k + 1]) == ps + [p];
      RowRead(fs, k + 1, s, ats + [e]);
    }
  }

  lemma NoneInRow(fs: seq<Labelled>)
    ensures ClaimsInRow(fs[|fs|..]) == [] && fs[..|fs|] == fs
  {
  }

  lemma IsAllowed(fs: seq<Labelled>, k: nat)
    requires AllAllowed(fs) && k < |fs|
    ensures Allowed(fs[k])
  {
    hide Allowed;
  }

  lemma NothingDeep(s: seq<byte>, ps: seq<Pair>, ats: seq<nat>)
    requires |ats| == |ps| + 1 && Shallow(s, ps, ats)
    ensures !exists j :: 0 <= j < |ps| && DeepComponents(s, ps, ats, j)
  {
    hide DeepComponents;
  }

  lemma SkipsNow(s: seq<byte>, ats: seq<nat>, k: nat)
    requires k < |ats| && DecodeKey(s, ats[k]).Ok? && Skip(s, DecodeKey(s, ats[k]).next, true).Ok?
    ensures Skips(s, ats, k)
  {
    hide DecodeKey, Skip;
  }

  // ----- Lookups -----

  lemma AllowedTail(fs: seq<Labelled>)
    requires fs != [] && AllAllowed(fs)
    ensures AllAllowed(fs[1..]) && Allowed(fs[0]) && PairsFor(fs)[1..] == PairsFor(fs[1..])
    ensures forall f :: f in fs[1..] ==> f.lbl != fs[0].lbl
  {
    hide Allowed;
    assert forall i :: 0 <= i < |fs[1..]| ==> fs[1..][i] == fs[i + 1];
  }

  lemma NumberIs(f: Labelled)
    requires Allowed(f)
    ensures Number(KeyOf(f.lbl)) == Some(f.lbl as int)
  {
    hide Allowed, KeyOf, Number;
    AllowedLabel(f);
    LegacyNames(f.lbl);
  }

  lemma {:induction false} LookedUp(fs: seq<Labelled>, f: Labelled)
    requires AllAllowed(fs) && f in fs
    ensures var ps := PairsFor(fs);
      && Has(ps, f.lbl)
      && (f.value.Str? ==> StrOf(ps, f.lbl) == Some(f.value.data))
      && (f.value.Num? ==> NumOf(ps, f.lbl) == f.value.n)
      && (f.value.Parts? ==> PartsOf(ps, f.lbl) == Some(f.value))
  {
    hide Allowed, KeyOf, Number, AllAllowed;
    AllowedTail(fs);
    NumberIs(fs[0]);
    var ps := PairsFor(fs);
    if f != fs[0] {
      assert f in fs[1..];
      LookedUp(fs[1..], f);
      HasTail(ps, f.lbl);
    } else {
      assert Number(ps[0].key) == Some(f.lbl as int);
    }
  }

  lemma HasTail(ps: seq<Pair>, n: int)
    requires ps != [] && Has(ps[1..], n)
    ensures Has(ps, n)
  {
    hide Number;
    var k :| 0 <= k < |ps[1..]| && Number(ps[1..][k].key) == Some(n);
    assert ps[k + 1] == ps[1..][k];
  }

  lemma {:induction false} NotThere(fs: seq<Labelled>, lbl: int)
    requires AllAllowed(fs) && forall f :: f in fs ==> f.lbl != lbl
    ensures var ps := PairsFor(fs);
      !Has(ps, lbl) && StrOf(ps, lbl) == None && NumOf(ps, lbl) == 0 && PartsOf(ps, lbl) == None
  {
    hide Allowed, KeyOf, Number, AllAllowed;
    if fs != [] {
      AllowedTail(fs);
      NumberIs(fs[0]);
      assert forall f :: f in fs[1..] ==> f in fs;
      NotThere(fs[1..], lbl);
      var ps := PairsFor(fs);
      assert forall k :: 0 < k < |ps| ==> ps[k] == ps[1..][k - 1];
    }
  }

  // ----- The record -----

  /** The labels fall from entry to entry. */
  predicate Falling(os: seq<Option<Labelled>>) {
    forall a, b :: 0 <= a < b < |os| && os[a].Some? && os[b].Some? ==> os[a].value.lbl > os[b].value.lbl
  }

  lemma {:induction false} PresentFalls(os: seq<Option<Labelled>>)
    requires Falling(os)
    ensures forall a, b :: 0 <= a < b < |Present(os)| ==> Present(os)[a].lbl > Present(os)[b].lbl
  {
    if os != [] {
      assert forall k :: 0 <= k < |os[1..]| ==> os[1..][k] == os[k + 1];
      PresentFalls(os[1..]);
      PresentFrom(os[1..]);
      var rest := Present(os[1..]);
      if os[0].Some? {
        assert Present(os) == [os[0].value] + rest;
        forall b | 0 <= b < |rest|
          ensures os[0].value.lbl > rest[b].lbl
        {
          assert Some(rest[b]) in os[1..];
          var k :| 0 <= k < |os[1..]| && os[1..][k] == Some(rest[b]);
          assert os[k + 1].Some?;
        }
      } else {
        assert Present(os) == rest;
      }
    }
  }

  lemma FieldsAllowed(c: LegacyClaims)
    requires LegacyValid(c) && Writeable(c)
    ensures forall k :: 0 <= k < 11 && LegacyFields(c)[k].Some? ==>
      Allowed(LegacyFields(c)[k].value) && LegacyFields(c)[k].value.lbl == -75000 - k
  {
    hide EncodeBstr, EncodeTstr, EncodeInt, ComponentsBytes, ReadAll, ReadsAs, IsUtf8, AllMeasured, LifecycleValid, AllDigits;
    ProfileTextIs();
    NumberOne();
    if c.certRef.Some? {
      DigitsAreText(c.certRef.value);
    }
    if c.components != [] {
      PartsReadAs(c.components);
    }
    hide LEGACY_TEXT;
  }

  lemma NumberOne()
    ensures EncodeInt(1) == [0x01]
  {
  }

  lemma DigitsAreText(d: seq<byte>)
    ensures AllDigits(d) ==> IsUtf8(d)
  {
    if AllDigits(d) {
      AsciiText(d, 0);
    }
  }

  lemma RecordAllowed(c: LegacyClaims)
    requires LegacyValid(c) && Writeable(c)
    ensures AllAllowed(Present(LegacyFields(c))) && |Present(LegacyFields(c))| <= 10
  {
    hide Allowed, LegacyFields, LegacyValid;
    var os := LegacyFields(c);
    FieldsAllowed(c);
    PresentFrom(os);
    PresentFalls(os);
    var fs := Present(os);
    forall i | 0 <= i < |fs|
      ensures Allowed(fs[i])
    {
      assert Some(fs[i]) in os;
      var k :| 0 <= k < |os| && os[k] == Some(fs[i]);
    }
    TenAtMost(c);
  }

  lemma TenAtMost(c: LegacyClaims)
    requires Writeable(c)
    ensures |Present(LegacyFields(c))| <= 10
  {
    hide EncodeBstr, EncodeTstr, EncodeInt, ComponentsBytes, ReadAll, Present;
    var os := LegacyFields(c);
    var k := if c.components == [] then 6 else 7;
    PresentWithout(os, k);
  }

  lemma {:induction false} PresentWithout(os: seq<Option<Labelled>>, k: nat)
    requires k < |os| && os[k].None?
    ensures |Present(os)| < |os|
  {
    if k > 0 {
      PresentWithout(os[1..], k - 1);
    }
  }

  /** An entry of the record that is there, looked up. */
  lemma FieldThere(c: LegacyClaims, k: nat)
    requires LegacyValid(c) && Writeable(c) && k < 11 && LegacyFields(c)[k].Some?
    ensures var ps, f := PairsFor(Present(LegacyFields(c))), LegacyFields(c)[k].value; var n := -75000 - k;
      && Has(ps, n)
      && (f.value.Str? ==> StrOf(ps, n) == Some(f.value.data))
      && (f.value.Num? ==> NumOf(ps, n) == f.value.n)
      && (f.value.Parts? ==> PartsOf(ps, n) == Some(f.value))
  {
    hide LegacyFields, LegacyValid, Allowed, Has, StrOf, NumOf, PartsOf, AllAllowed;
    RecordAllowed(c);
    FieldsAllowed(c);
    PresentFrom(LegacyFields(c));
    LookedUp(Present(LegacyFields(c)), LegacyFields(c)[k].value);
  }

  /** And one that is not. */
  lemma FieldMissing(c: LegacyClaims, k: nat)
    requires LegacyValid(c) && Writeable(c) && k < 11 && LegacyFields(c)[k].None?
    ensures var ps, n := PairsFor(Present(LegacyFields(c))), -75000 - k;
      !Has(ps, n) && StrOf(ps, n) == None && NumOf(ps, n) == 0 && PartsOf(ps, n) == None
  {
    hide LegacyFields, LegacyValid, Allowed, Has, StrOf, NumOf, PartsOf, AllAllowed;
    RecordAllowed(c);
    FieldsAllowed(c);
    var os := LegacyFields(c);
    PresentFrom(os);
    forall f: Labelled | f in Present(os)
      ensures f.lbl != -75000 - k
    {
      var i :| 0 <= i < |Present(os)| && Present(os)[i] == f;
      assert Some(Present(os)[i]) in os;
      var j :| 0 <= j < |os| && os[j] == Some(f);
    }
    NotThere(Present(os), -75000 - k);
  }

  /** What a reader gets of a record. */
  function TokenOfRecord(c: LegacyClaims): (t: Token)
    requires |c.components| < U64_BOUND
  {
    Token(true, Some(c.nonce), Some(c.ueid), Some(c.implementation), Some(c.bootSeed), c.certRef, c.vsi, c.clientId,
          c.lifecycle, if c.components == [] then None else Some(ComponentsBytes(c.components)), |c.components|,
          c.components == [])
  }

  lemma RecordSays(c: LegacyClaims)
    requires LegacyValid(c) && Writeable(c)
    ensures var ps := PairsFor(Present(LegacyFields(c)));
      LegacyRequired(ps) && LegacyToken(ps) == TokenOfRecord(c)
  {
    RequiredThere(c);
    NumbersThere(c);
    OptionalThere(c);
    hide LegacyFields, LegacyValid, Has, StrOf, NumOf, PartsOf, ComponentsBytes, ReadAll;
  }

  lemma RequiredThere(c: LegacyClaims)
    requires LegacyValid(c) && Writeable(c)
    ensures var ps := PairsFor(Present(LegacyFields(c)));
      && Has(ps, -75003) && Has(ps, -75004) && Has(ps, -75008) && Has(ps, -75009)
      && StrOf(ps, -75003) == Some(c.implementation) && StrOf(ps, -75004) == Some(c.bootSeed)
      && StrOf(ps, -75008) == Some(c.nonce) && StrOf(ps, -75009) == Some(c.ueid)
  {
    hide LegacyValid, Has, StrOf, NumOf, PartsOf, Present, EncodeBstr, EncodeTstr, EncodeInt, ComponentsBytes, ReadAll;
    FieldThere(c, 3);
    FieldThere(c, 4);
    FieldThere(c, 8);
    FieldThere(c, 9);
  }

  lemma NumbersThere(c: LegacyClaims)
    requires LegacyValid(c) && Writeable(c)
    ensures var ps := PairsFor(Present(LegacyFields(c)));
      && Has(ps, -75001) && Has(ps, -75002) && NumOf(ps, -75001) == c.clientId && NumOf(ps, -75002) == c.lifecycle
  {
    hide LegacyValid, Has, StrOf, NumOf, PartsOf, Present, EncodeBstr, EncodeTstr, EncodeInt, ComponentsBytes, ReadAll;
    FieldThere(c, 1);
    FieldThere(c, 2);
  }

  lemma OptionalThere(c: LegacyClaims)
    requires LegacyValid(c) && Writeable(c)
    ensures var ps := PairsFor(Present(LegacyFields(c)));
      && StrOf(ps, -75005) == c.certRef && StrOf(ps, -75010) == c.vsi
      && (if c.components == [] then
            !Has(ps, -75006) && Has(ps, -75007) && PartsOf(ps, -75006) == None && NumOf(ps, -75007) == 1
          else
            && Has(ps, -75006) && !Has(ps, -75007) && NumOf(ps, -75007) == 0
            && PartsOf(ps, -75006) == Some(Parts(ReadAll(c.components), ComponentsBytes(c.components))))
  {
    hide LegacyValid, Has, StrOf, NumOf, PartsOf, Present, EncodeBstr, EncodeTstr, EncodeInt, ComponentsBytes, ReadAll;
    if c.certRef.Some? {
      FieldThere(c, 5);
    } else {
      FieldMissing(c, 5);
    }
    if c.vsi.Some? {
      FieldThere(c, 10);
    } else {
      FieldMissing(c, 10);
    }
    if c.components == [] {
      FieldMissing(c, 6);
      FieldThere(c, 7);
    } else {
      FieldThere(c, 6);
      FieldMissing(c, 7);
    }
  }

  lemma RecordOnly(fs: seq<Labelled>)
    requires AllAllowed(fs)
    ensures Only(PairsFor(fs), true)
  {
    hide Allowed, KnownOf, ClaimUnder;
    forall k | 0 <= k < |fs|
      ensures KnownOf(PairsFor(fs)[k].key) == Some(Known(ClaimUnder(fs[k].lbl), true))
    {
      AllowedLabel(fs[k]);
      LegacyNames(fs[k].lbl);
    }
  }

  lemma RecordSizes(c: LegacyClaims)
    requires LegacyValid(c) && Writeable(c)
    ensures TokenSizes(TokenOfRecord(c))
  {
    hide ComponentsBytes, AllMeasured, IsUtf8, AllDigits, LifecycleValid;
  }

  /** The entries of the map of a record. */
  lemma RecordRead(c: LegacyClaims)
    requires LegacyValid(c) && Writeable(c) && |LegacyMap(c)| <= SIZE_MAX
    ensures ClaimPairs(LegacyMap(c)) == Ok(PairsFor(Present(LegacyFields(c))), |LegacyMap(c)|)
  {
    hide Pairs, DecodeKey, ValueAt, Allowed, EncodeHead, ClaimsInRow, AllAllowed, LegacyFields, LegacyValid, DecodeContainer,
         Present;
    var fs, s := Present(LegacyFields(c)), LegacyMap(c);
    RecordAllowed(c);
    var h, r := EncodeHead(MAP, |fs|), ClaimsInRow(fs);
    ThreeParts(h, r, []);
    assert s == h + r + [];
    RowLength(fs);
    ContainerRead(MAP, |fs|, s, 0);
    NothingYet(s, |h|);
    assert fs[..0] == [] && fs[0..] == fs && PairsFor([]) == [];
    RowRead(fs, 0, s, [|h|]);
  }

  lemma NothingYet(s: seq<byte>, i: nat)
    ensures Walked(ClaimsMap, s, [], [i]) && Shallow(s, [], [i])
  {
  }

  lemma {:induction false} RowLength(fs: seq<Labelled>)
    requires AllAllowed(fs)
    ensures |ClaimsInRow(fs)| >= 2 * |fs|
  {
    hide Allowed, EncodeInt, AllAllowed;
    if fs != [] {
      AllowedTail(fs);
      OneLength(fs[0]);
      RowLength(fs[1..]);
    }
  }

  lemma OneLength(f: Labelled)
    requires Allowed(f)
    ensures |EncodeInt(f.lbl)| >= 1 && |f.bytes| >= 1
  {
    hide IsUtf8;
    if f.value.Parts? {
      assert SameSlice(f.bytes, 0, f.bytes, 0, |f.bytes|);
      assert |f.bytes| <= SIZE_MAX ==> ComponentsAt(f.bytes, 0) == Ok(f.value.cs, 0 + |f.bytes|);
    }
  }

  /** Whatever a valid record says, with components or with the statement that there are none: the map of its
      claims under the labels -75000 to -75010 parses to the same fields, and iterating gives the same components. */
  lemma LegacyRoundTrip(c: LegacyClaims)
    requires LegacyValid(c) && Writeable(c) && |LegacyMap(c)| <= SIZE_MAX
    ensures DecodeClaims(LegacyMap(c)) == Ok(TokenOfRecord(c), |LegacyMap(c)|)
    ensures c.components != [] ==>
      StoredComponents(TokenOfRecord(c)) == Ok(ReadAll(c.components), |ComponentsBytes(c.components)|)
    ensures c.components == [] ==> StoredComponents(TokenOfRecord(c)) == Ok([], 0)
  {
    hide ClaimPairs, DecodeClaims, LegacyMap, LegacyFields, LegacyRequired, LegacyToken, TokenSizes, LegacyValid, Only,
         TokenOfRecord, AllAllowed, CurrentRequired, CurrentToken;
    var s, fs := LegacyMap(c), Present(LegacyFields(c));
    RecordRead(c);
    RecordAllowed(c);
    RecordOnly(fs);
    RecordSays(c);
    RecordSizes(c);
    AcceptsExactly(s);
    NotCurrent(PairsFor(fs));
    RecordComponents(c);
  }

  lemma NotCurrent(ps: seq<Pair>)
    requires LegacyRequired(ps) && Only(ps, true)
    ensures !Says(ps, false)
  {
    hide Number, KnownOf;
    var k :| 0 <= k < |ps| && Number(ps[k].key) == Some(-75001);
    LabelNames(ps[k].key, ClientId, true);
  }

  lemma RecordComponents(c: LegacyClaims)
    requires LegacyValid(c) && Writeable(c) && |LegacyMap(c)| <= SIZE_MAX
    ensures c.components != [] ==>
      StoredComponents(TokenOfRecord(c)) == Ok(ReadAll(c.components), |ComponentsBytes(c.components)|)
    ensures c.components == [] ==> StoredComponents(TokenOfRecord(c)) == Ok([], 0)
  {
    hide ComponentsBytes, ComponentsFrom, DecodeContainer, ReadAll, SameSlice, ComponentsAt, Skip, AllMeasured, LegacyMap;
    if c.components != [] {
      var b := ComponentsBytes(c.components);
      PartsBelow(c);
      WholeItself(b);
      PartsParse(c.components, b, 0);
    }
  }

  lemma PartsBelow(c: LegacyClaims)
    requires LegacyValid(c) && Writeable(c) && c.components != []
    ensures |ComponentsBytes(c.components)| <= |LegacyMap(c)|
  {
    hide EncodeBstr, EncodeTstr, EncodeInt, EncodeHead, ComponentsBytes, ReadAll, Present, ClaimsInRow, LegacyValid;
    var os := LegacyFields(c);
    PresentFrom(os);
    assert os[6].value in Present(os);
    ClaimWithin(Present(os), os[6].value);
  }

  lemma {:induction false} ClaimWithin(fs: seq<Labelled>, f: Labelled)
    requires f in fs
    ensures |f.bytes| <= |ClaimsInRow(fs)|
  {
    hide EncodeInt, ClaimsInRow;
    RowCons(fs);
    if f != fs[0] {
      assert f in fs[1..];
      ClaimWithin(fs[1..], f);
    }
  }
}
