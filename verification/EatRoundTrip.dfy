/**
 Printing claims of the current profile, and the theorem that parsing what was printed gives
 the same claims and the same components.
 */
module EatRoundTrip {
  import opened Wire
  import opened Utf8
  import opened Cbor
  import opened CborGrammar
  import opened CborRoundTrip
  import opened Header
  import opened CountersignLemmas
  import opened CountersignLists
  import opened CountersignAdd
  import opened Eat
  import opened EatLemmas

  // ----- What is printed -----

  /** The claims as the caller describes them. */
  datatype Claims = Claims(nonce: Bytes, ueid: Bytes, implementation: Bytes, bootSeed: Option<Bytes>,
                           certRef: Option<Bytes>, vsi: Option<Bytes>, clientId: int, lifecycle: nat,
                           components: seq<Measured>)

  /** A software component as the caller describes it. */
  datatype Measured = Measured(mtype: Option<Bytes>, value: Bytes, version: Option<Bytes>, signer: Bytes,
                               desc: Option<Bytes>)

  /** The component that a reader gets. */
  function Read(c: Measured): (r: Component) {
    Component(c.mtype, Some(c.value), c.version, Some(c.signer), c.desc)
  }

  function ReadAll(cs: seq<Measured>): (rs: seq<Component>)
    ensures |rs| == |cs| && forall i :: 0 <= i < |cs| ==> rs[i] == Read(cs[i])
  {
    seq(|cs|, i requires 0 <= i < |cs| => Read(cs[i]))
  }

  /** An entry to print: its label, the bytes of its value, and what a reader makes of it. */
  datatype Field = Field(lbl: u64, bytes: seq<byte>, value: Value)

  function BytesField(lbl: u64, d: Bytes): (f: Field) {
    Field(lbl, EncodeBstr(d), Str(d))
  }

  function TextField(lbl: u64, d: Bytes): (f: Field) {
    Field(lbl, EncodeTstr(d), Str(d))
  }

  function OptionalBytes(lbl: u64, d: Option<Bytes>): (f: Option<Field>) {
    match d { case None => None case Some(b) => Some(BytesField(lbl, b)) }
  }

  function OptionalText(lbl: u64, d: Option<Bytes>): (f: Option<Field>) {
    match d { case None => None case Some(b) => Some(TextField(lbl, b)) }
  }

  /** The entries that are there. */
  function Present<T>(os: seq<Option<T>>): (fs: seq<T>)
    ensures |fs| <= |os|
  {
    if os == [] then []
    else (match os[0] { case None => [] case Some(f) => [f] }) + Present(os[1..])
  }

  function FieldsBytes(fs: seq<Field>): (b: seq<byte>) {
    if fs == [] then [] else EncodeHead(UINT, fs[0].lbl) + fs[0].bytes + FieldsBytes(fs[1..])
  }

  function MapBytes(fs: seq<Field>): (b: seq<byte>)
    requires |fs| < U64_BOUND
  {
    EncodeHead(MAP, |fs|) + FieldsBytes(fs)
  }

  function ComponentFields(c: Measured): (os: seq<Option<Field>>)
    ensures |os| == 5
  {
    [OptionalText(1, c.mtype), Some(BytesField(2, c.value)), OptionalText(4, c.version), Some(BytesField(5, c.signer)),
     OptionalText(6, c.desc)]
  }

  function ComponentBytes(c: Measured): (b: seq<byte>) {
    MapBytes(Present(ComponentFields(c)))
  }

  function AllComponents(cs: seq<Measured>): (b: seq<byte>) {
    if cs == [] then [] else ComponentBytes(cs[0]) + AllComponents(cs[1..])
  }

  function ComponentsBytes(cs: seq<Measured>): (b: seq<byte>)
    requires |cs| < U64_BOUND
  {
    EncodeHead(ARRAY, |cs|) + AllComponents(cs)
  }

  function ClaimFields(c: Claims): (os: seq<Option<Field>>)
    requires InInt32(c.clientId) && c.lifecycle <= 0xFFFF && |c.components| < U64_BOUND
    ensures |os| == 10
  {
    [Some(BytesField(10, c.nonce)), Some(BytesField(256, c.ueid)), Some(ProfileField()), OptionalBytes(268, c.bootSeed),
     Some(Field(2394, EncodeInt(c.clientId), Num(c.clientId))),
     Some(Field(2395, EncodeHead(UINT, c.lifecycle), Num(c.lifecycle))), Some(BytesField(2396, c.implementation)),
     OptionalText(2398, c.certRef),
     Some(Field(2399, ComponentsBytes(c.components), Parts(ReadAll(c.components), ComponentsBytes(c.components)))),
     OptionalText(2400, c.vsi)]
  }

  function ProfileField(): (f: Field) {
    TextField(265, TfmProfile())
  }

  function ClaimsBytes(c: Claims): (b: seq<byte>)
    requires InInt32(c.clientId) && c.lifecycle <= 0xFFFF && |c.components| < U64_BOUND
  {
    MapBytes(Present(ClaimFields(c)))
  }

  // ----- What may be printed -----

  predicate HashLength(d: Bytes) {
    |d| == 32 || |d| == 48 || |d| == 64
  }

  predicate MeasuredValid(c: Measured) {
    HashLength(c.value) && HashLength(c.signer)
  }

  /** `wolfCose_EatPsaValidateClaims`. */
  predicate ClaimsValid(c: Claims) {
    && HashLength(c.nonce) && |c.ueid| == 33 && c.ueid[0] == 1 && |c.implementation| == 32
    && InInt32(c.clientId) && c.clientId != 0 && LifecycleValid(c.lifecycle)
    && 0 < |c.components| <= MAX_COMPONENTS && (forall i :: 0 <= i < |c.components| ==> MeasuredValid(c.components[i]))
    && (c.bootSeed.Some? ==> 8 <= |c.bootSeed.value| <= 32)
    && (c.certRef.Some? ==> CertRefValid(c.certRef.value, false))
  }

  predicate TextOk(d: Option<Bytes>) {
    d.Some? ==> IsUtf8(d.value)
  }

  predicate MeasuredText(c: Measured) {
    TextOk(c.mtype) && TextOk(c.version) && TextOk(c.desc)
  }

  /** All texts are UTF-8. */
  predicate ClaimsText(c: Claims) {
    && TextOk(c.certRef) && TextOk(c.vsi)
    && forall i :: 0 <= i < |c.components| ==> MeasuredText(c.components[i])
  }

  /** What a reader gets of the claims. */
  function TokenFor(c: Claims): (t: Token)
    requires |c.components| < U64_BOUND
  {
    Token(false, Some(c.nonce), Some(c.ueid), Some(c.implementation), c.bootSeed, c.certRef, c.vsi, c.clientId, c.lifecycle,
          Some(ComponentsBytes(c.components)), |c.components|, false)
  }

  // ----- Lists of entries -----

  predicate Sorted(fs: seq<Field>) {
    forall a, b :: 0 <= a < b < |fs| ==> fs[a].lbl < fs[b].lbl
  }

  /** The labels of entries that are there rise. */
  predicate Rising(os: seq<Option<Field>>) {
    forall a, b :: 0 <= a < b < |os| && os[a].Some? && os[b].Some? ==> os[a].value.lbl < os[b].value.lbl
  }

  lemma {:induction false} PresentFrom<T>(os: seq<Option<T>>)
    ensures forall k :: 0 <= k < |Present(os)| ==> Some(Present(os)[k]) in os
    ensures forall o :: o in os && o.Some? ==> o.value in Present(os)
  {
    if os != [] {
      PresentFrom(os[1..]);
      var h := match os[0] { case None => [] case Some(f) => [f] };
      assert Present(os) == h + Present(os[1..]);
      forall k | 0 <= k < |Present(os)|
        ensures Some(Present(os)[k]) in os
      {
        if k >= |h| {
          assert Present(os)[k] == Present(os[1..])[k - |h|];
        }
      }
      forall o | o in os && o.Some?
        ensures o.value in Present(os)
      {
        if o != os[0] {
          assert o in os[1..];
        }
      }
    }
  }

  lemma {:induction false} PresentSorted(os: seq<Option<Field>>)
    requires Rising(os)
    ensures Sorted(Present(os))
  {
    hide Rising, Sorted, Present;
    if os == [] {
      NothingSorted();
    } else {
      RisingTail(os);
      PresentSorted(os[1..]);
      PresentCons(os);
      if os[0].Some? {
        HeadBelow(os);
        SortedCons(os[0].value, Present(os[1..]));
      }
    }
  }

  lemma NothingSorted()
    ensures Present<Field>([]) == [] && Sorted([])
  {
  }

  lemma PresentCons(os: seq<Option<Field>>)
    requires os != []
    ensures Present(os) == if os[0].Some? then [os[0].value] + Present(os[1..]) else Present(os[1..])
  {
  }

  lemma RisingTail(os: seq<Option<Field>>)
    requires os != [] && Rising(os)
    ensures Rising(os[1..])
  {
    forall a, b | 0 <= a < b < |os[1..]| && os[1..][a].Some? && os[1..][b].Some?
      ensures os[1..][a].value.lbl < os[1..][b].value.lbl
    {
      assert os[1..][a] == os[a + 1] && os[1..][b] == os[b + 1];
    }
  }

  /** The first entry is below all others that are there. */
  lemma HeadBelow(os: seq<Option<Field>>)
    requires os != [] && Rising(os) && os[0].Some?
    ensures forall f :: f in Present(os[1..]) ==> os[0].value.lbl < f.lbl
  {
    hide Present;
    PresentFrom(os[1..]);
    var rest := Present(os[1..]);
    forall f | f in rest
      ensures os[0].value.lbl < f.lbl
    {
      var k :| 0 <= k < |rest| && rest[k] == f;
      var a :| 0 <= a < |os[1..]| && os[1..][a] == Some(rest[k]);
      assert os[a + 1] == Some(f);
    }
  }

  lemma SortedCons(f: Field, fs: seq<Field>)
    requires Sorted(fs) && forall g :: g in fs ==> f.lbl < g.lbl
    ensures Sorted([f] + fs)
  {
    forall a, b | 0 <= a < b < |[f] + fs|
      ensures ([f] + fs)[a].lbl < ([f] + fs)[b].lbl
    {
      assert ([f] + fs)[b] == fs[b - 1];
      if a > 0 {
        assert ([f] + fs)[a] == fs[a - 1];
      }
    }
  }

  /** What a reader makes of printed entries. */
  function PairsOf(fs: seq<Field>): (ps: seq<Pair>)
    ensures |ps| == |fs| && forall i :: 0 <= i < |fs| ==> ps[i] == Pair(Unsigned(fs[i].lbl), fs[i].value)
  {
    seq(|fs|, i requires 0 <= i < |fs| => Pair(Unsigned(fs[i].lbl), fs[i].value))
  }

  lemma FieldsCons(fs: seq<Field>)
    requires fs != []
    ensures FieldsBytes(fs) == EncodeHead(UINT, fs[0].lbl) + fs[0].bytes + FieldsBytes(fs[1..])
  {
    hide EncodeHead;
  }

  lemma FieldsNone()
    ensures FieldsBytes([]) == []
  {
  }

  lemma {:induction false} FieldsSplit(fs: seq<Field>, gs: seq<Field>)
    ensures FieldsBytes(fs + gs) == FieldsBytes(fs) + FieldsBytes(gs)
  {
    hide EncodeHead, FieldsBytes;
    if fs == [] {
      FieldsNone();
      assert fs + gs == gs;
    } else {
      FieldsSplit(fs[1..], gs);
      FieldsCons(fs);
      FieldsCons(fs + gs);
      assert (fs + gs)[0] == fs[0] && (fs + gs)[1..] == fs[1..] + gs;
    }
  }

  // ----- Reading printed entries -----

  /** The entry is typed by its label. */
  ghost predicate Typed(shape: Shape, f: Field) {
    match shape
    case ComponentMap =>
      && f.lbl in {1, 2, 4, 5, 6} && f.value.Str? && |f.value.data| <= SIZE_MAX
      && (if f.lbl in {2, 5} then f.bytes == EncodeBstr(f.value.data)
          else f.bytes == EncodeTstr(f.value.data) && IsUtf8(f.value.data))
    case ClaimsMap =>
      match f.value
      case Str(d) =>
        && |d| <= SIZE_MAX && f.lbl in {10, 256, 265, 268, 2396, 2398, 2400}
        && (if f.lbl in {265, 2398, 2400} then f.bytes == EncodeTstr(d) && IsUtf8(d) else f.bytes == EncodeBstr(d))
        && (f.lbl == 265 ==> d == TfmProfile())
      case Num(n) =>
        || (f.lbl == 2394 && InInt32(n) && n != 0 && f.bytes == EncodeInt(n))
        || (f.lbl == 2395 && 0 <= n && LifecycleValid(n) && f.bytes == EncodeHead(UINT, n))
      case Parts(cs, raw) =>
        && f.lbl == 2399 && raw == f.bytes && ReadsAs(raw, cs)
      case Skipped => false
  }

  /** The bytes of an array that is read as these components and skipped to its end. */
  ghost predicate ReadsAs(raw: seq<byte>, cs: seq<Component>) {
    forall s: seq<byte>, j: nat {:trigger ComponentsAt(s, j)} | |s| <= SIZE_MAX && SameSlice(raw, 0, s, j, |raw|) ::
      ComponentsAt(s, j) == Ok(cs, j + |raw|) && Skip(s, j, true) == Ok((), j + |raw|)
  }

  lemma KeyRead(lbl: u64, s: seq<byte>, i: nat)
    requires SameSlice(EncodeHead(UINT, lbl), 0, s, i, HeadSize(lbl))
    ensures DecodeKey(s, i) == Ok(Unsigned(lbl), i + HeadSize(lbl))
  {
    hide DecodeHead, EncodeHead;
    HeadRoundTrip(UINT, lbl, true, s, i);
  }

  lemma StringRead(major: Major, d: Bytes, s: seq<byte>, j: nat)
    requires major == BSTR || (major == TSTR && IsUtf8(d))
    requires SameSlice(EncodeString(major, d), 0, s, j, |EncodeString(major, d)|)
    ensures DecodeString(s, j, major, true) == Ok(d, j + |EncodeString(major, d)|)
    ensures Skip(s, j, true) == Ok((), j + |EncodeString(major, d)|)
  {
    hide DecodeHead, EncodeString, SkipItems, IsUtf8;
    StringRoundTrip(major, d, true, s, j);
    SkipOfHead(s, j, CBOR_MAX_DEPTH, true);
  }

  lemma IntRead(n: i64, s: seq<byte>, j: nat)
    requires SameSlice(EncodeInt(n), 0, s, j, |EncodeInt(n)|)
    ensures DecodeInt(s, j, true) == Ok(n, j + |EncodeInt(n)|) && (n >= 0 ==> DecodeUint(s, j, true) == Ok(n, j + |EncodeInt(n)|))
    ensures Skip(s, j, true) == Ok((), j + |EncodeInt(n)|)
  {
    hide DecodeHead, EncodeHead, SkipItems;
    IntRoundTrip(n, true, s, j);
    SkipOfHead(s, j, CBOR_MAX_DEPTH, true);
  }

  lemma ComponentFieldRead(f: Field, s: seq<byte>, j: nat, ps: seq<Pair>)
    requires Typed(ComponentMap, f) && SameSlice(f.bytes, 0, s, j, |f.bytes|) && !SeenNumber(ps, f.lbl)
    ensures ValueAt(ComponentMap, s, j, Unsigned(f.lbl), ps) == Ok(f.value, j + |f.bytes|)
    ensures Skip(s, j, true) == Ok((), j + |f.bytes|)
  {
    hide DecodeString, EncodeString, SkipItems, IsUtf8, SameSlice, SeenNumber;
    StringRead(if f.lbl in {2, 5} then BSTR else TSTR, f.value.data, s, j);
  }

  /** The claim that a printed label names. */
  function ClaimNamed(lbl: u64): (c: Claim) {
    match KnownOf(Unsigned(lbl)) { case Some(k) => k.claim case None => Vsi }
  }

  lemma TypedIsKnown(f: Field)
    requires Typed(ClaimsMap, f)
    ensures KnownOf(Unsigned(f.lbl)) == Some(Known(ClaimNamed(f.lbl), false))
  {
    hide ReadsAs, EncodeString, EncodeHead, EncodeInt, IsUtf8;
  }

  lemma ClaimFieldRead(f: Field, s: seq<byte>, j: nat, ps: seq<Pair>)
    requires Typed(ClaimsMap, f) && SameSlice(f.bytes, 0, s, j, |f.bytes|) && |s| <= SIZE_MAX
    requires !Mixed(ps, false) && !Seen(ps, ClaimNamed(f.lbl))
    ensures ValueAt(ClaimsMap, s, j, Unsigned(f.lbl), ps) == Ok(f.value, j + |f.bytes|)
    ensures Skip(s, j, true) == Ok((), j + |f.bytes|)
  {
    hide DecodeString, EncodeString, SkipItems, IsUtf8, SameSlice, Mixed, Seen, EncodeHead, ComponentsAt, DecodeHead,
         TfmProfile, Skip;
    match f.value
    case Str(d) =>
      StringRead(if f.lbl in {265, 2398, 2400} then TSTR else BSTR, d, s, j);
    case Num(n) =>
      IntRead(n, s, j);
    case Parts(cs, raw) =>
      assert ComponentsAt(s, j) == Ok(cs, j + |raw|);
      StandsThere(raw, s, j);
  }

  lemma StandsThere(raw: seq<byte>, s: seq<byte>, j: nat)
    requires SameSlice(raw, 0, s, j, |raw|)
    ensures j + |raw| <= |s| && s[j..j + |raw|] == raw
  {
    assert raw[0..|raw|] == raw;
  }

  // ----- Reading printed maps -----

  ghost predicate AllTyped(shape: Shape, fs: seq<Field>) {
    forall k :: 0 <= k < |fs| ==> Typed(shape, fs[k])
  }

  /** The value of a printed entry is skipped to its end. */
  lemma FieldSkips(shape: Shape, f: Field, s: seq<byte>, j: nat)
    requires Typed(shape, f) && SameSlice(f.bytes, 0, s, j, |f.bytes|) && |s| <= SIZE_MAX
    ensures Skip(s, j, true) == Ok((), j + |f.bytes|)
  {
    hide Typed, Skip, SameSlice, ValueAt;
    match shape
    case ComponentMap => ComponentFieldRead(f, s, j, []);
    case ClaimsMap => ClaimFieldRead(f, s, j, []);
  }

  /** Where the parts of printed entries stand. */
  lemma FieldsLayout(fs: seq<Field>, s: seq<byte>, i: nat)
    requires fs != [] && SameSlice(FieldsBytes(fs), 0, s, i, |FieldsBytes(fs)|)
    ensures var h, b, r := EncodeHead(UINT, fs[0].lbl), fs[0].bytes, FieldsBytes(fs[1..]); var j := i + |h|;
      && |h| == HeadSize(fs[0].lbl) && |FieldsBytes(fs)| == |h| + |b| + |r| && i + |FieldsBytes(fs)| <= |s|
      && SameSlice(h, 0, s, i, |h|) && SameSlice(b, 0, s, j, |b|) && SameSlice(r, 0, s, j + |b|, |r|)
  {
    hide EncodeHead, FieldsBytes, SameSlice;
    var h, b, r := EncodeHead(UINT, fs[0].lbl), fs[0].bytes, FieldsBytes(fs[1..]);
    var all := FieldsBytes(fs);
    FieldsCons(fs);
    ThreeParts(h, b, r);
    SameSliceBound(all, 0, s, i, |all|);
    Within(h, all, 0, s, i);
    Within(b, all, |h|, s, i);
    Within(r, all, |h| + |b|, s, i);
  }

  /** A scan over printed entries does not find a label that is not among theirs. */
  lemma {:induction false} PrintedPrior(shape: Shape, gs: seq<Field>, s: seq<byte>, i: nat, n: nat, lbl: u64)
    requires AllTyped(shape, gs) && |gs| <= n && |s| <= SIZE_MAX
    requires SameSlice(FieldsBytes(gs), 0, s, i, |FieldsBytes(gs)|)
    requires forall k :: 0 <= k < |gs| ==> gs[k].lbl != lbl
    ensures PriorFrom(s, i, n, i + |FieldsBytes(gs)|, Unsigned(lbl)) == Ok(false, i + |FieldsBytes(gs)|)
    decreases |gs|
  {
    hide DecodeKey, Skip, Typed, SameSlice, FieldsBytes, EncodeHead;
    if gs == [] {
      FieldsNone();
    } else {
      FieldsLayout(gs, s, i);
      var j := i + HeadSize(gs[0].lbl);
      KeyRead(gs[0].lbl, s, i);
      FieldSkips(shape, gs[0], s, j);
      PrintedPrior(shape, gs[1..], s, j + |gs[0].bytes|, n - 1, lbl);
    }
  }

  /** A printed entry may be read after those before it. */
  lemma MayFollow(gs: seq<Field>, f: Field)
    requires AllTyped(ClaimsMap, gs + [f]) && Sorted(gs + [f])
    ensures !Mixed(PairsOf(gs), false) && !Seen(PairsOf(gs), ClaimNamed(f.lbl))
  {
    hide Typed, KnownOf, ClaimNamed;
    assert (gs + [f])[|gs|] == f;
    TypedIsKnown(f);
    forall k | 0 <= k < |gs|
      ensures KnownOf(Unsigned(gs[k].lbl)) == Some(Known(ClaimNamed(gs[k].lbl), false))
      ensures ClaimNamed(gs[k].lbl) != ClaimNamed(f.lbl)
    {
      assert (gs + [f])[k] == gs[k];
      TypedIsKnown(gs[k]);
      MaskIsRedundant(Unsigned(gs[k].lbl), Unsigned(f.lbl));
    }
  }

  lemma NumberNotSeen(gs: seq<Field>, f: Field)
    requires Sorted(gs + [f])
    ensures !SeenNumber(PairsOf(gs), f.lbl)
  {
    assert (gs + [f])[|gs|] == f;
    forall k | 0 <= k < |gs|
      ensures Number(PairsOf(gs)[k].key) != Some(f.lbl)
    {
      assert (gs + [f])[k] == gs[k];
    }
  }

  lemma FieldRead(shape: Shape, gs: seq<Field>, f: Field, s: seq<byte>, j: nat)
    requires AllTyped(shape, gs + [f]) && Sorted(gs + [f])
    requires SameSlice(f.bytes, 0, s, j, |f.bytes|) && |s| <= SIZE_MAX
    ensures ValueAt(shape, s, j, Unsigned(f.lbl), PairsOf(gs)) == Ok(f.value, j + |f.bytes|)
  {
    hide Typed, SameSlice, ValueAt, Sorted, Mixed, Seen, SeenNumber;
    assert (gs + [f])[|gs|] == f;
    match shape
    case ComponentMap =>
      NumberNotSeen(gs, f);
      ComponentFieldRead(f, s, j, PairsOf(gs));
    case ClaimsMap =>
      MayFollow(gs, f);
      ClaimFieldRead(f, s, j, PairsOf(gs));
  }

  /** No label of sorted entries is that of a later one. */
  lemma NotAmong(gs: seq<Field>, f: Field)
    requires Sorted(gs + [f])
    ensures forall k :: 0 <= k < |gs| ==> gs[k].lbl != f.lbl
  {
    assert (gs + [f])[|gs|] == f;
    forall k | 0 <= k < |gs|
      ensures gs[k].lbl != f.lbl
    {
      assert (gs + [f])[k] == gs[k];
    }
  }

  /** Printed entries are read back, one after the other. */
  lemma {:induction false} FieldsParse(shape: Shape, s: seq<byte>, m: nat, h: nat, gs: seq<Field>, fs: seq<Field>, i: nat)
    requires AllTyped(shape, gs + fs) && Sorted(gs + fs) && m + h <= |s| <= SIZE_MAX
    requires DecodeMap(s[m..], 0, true) == Ok(|gs| + |fs|, h) && i == m + h + |FieldsBytes(gs)|
    requires SameSlice(FieldsBytes(gs), 0, s, m + h, |FieldsBytes(gs)|)
    requires SameSlice(FieldsBytes(fs), 0, s, i, |FieldsBytes(fs)|) && i <= |s|
    ensures Pairs(shape, s, m, i, |fs|, PairsOf(gs)) == Ok(PairsOf(gs + fs), i + |FieldsBytes(fs)|)
    decreases |fs|
  {
    hide *;
    if fs == [] {
      FieldsNone();
      assert gs + fs == gs;
      PairsNone(shape, s, m, i, PairsOf(gs));
    } else {
      var f, rest := fs[0], fs[1..];
      assert gs + fs == (gs + [f]) + rest;
      FirstOf(shape, gs, f, rest);
      FieldsLayout(fs, s, i);
      var j := i + HeadSize(f.lbl);
      KeyRead(f.lbl, s, i);
      NotAmong(gs, f);
      PriorOk(shape, s, m, h, gs, |gs| + |fs|, f.lbl);
      FieldRead(shape, gs, f, s, j);
      PairsCons(shape, s, m, i, |fs|, PairsOf(gs), Unsigned(f.lbl), j, f.value, j + |f.bytes|);
      PairsNext(gs, f);
      FieldsNext(gs, f, s, m + h, i);
      FieldsParse(shape, s, m, h, gs + [f], rest, j + |f.bytes|);
    }
  }

  lemma FirstOf(shape: Shape, gs: seq<Field>, f: Field, rest: seq<Field>)
    requires AllTyped(shape, (gs + [f]) + rest) && Sorted((gs + [f]) + rest)
    ensures AllTyped(shape, gs + [f]) && Sorted(gs + [f])
    ensures AllTyped(shape, gs)
  {
    hide Typed;
    var all := (gs + [f]) + rest;
    assert forall k :: 0 <= k <= |gs| ==> (gs + [f])[k] == all[k];
    assert forall k :: 0 <= k < |gs| ==> gs[k] == all[k];
  }

  lemma PairsNext(gs: seq<Field>, f: Field)
    ensures PairsOf(gs + [f]) == PairsOf(gs) + [Pair(Unsigned(f.lbl), f.value)]
  {
  }

  lemma FieldsNext(gs: seq<Field>, f: Field, s: seq<byte>, from: nat, i: nat)
    requires i == from + |FieldsBytes(gs)| && SameSlice(FieldsBytes(gs), 0, s, from, |FieldsBytes(gs)|)
    requires SameSlice(EncodeHead(UINT, f.lbl), 0, s, i, |EncodeHead(UINT, f.lbl)|)
    requires SameSlice(f.bytes, 0, s, i + |EncodeHead(UINT, f.lbl)|, |f.bytes|)
    ensures |EncodeHead(UINT, f.lbl)| == HeadSize(f.lbl)
    ensures var b := FieldsBytes(gs + [f]);
      |b| == |FieldsBytes(gs)| + HeadSize(f.lbl) + |f.bytes| && SameSlice(b, 0, s, from, |b|)
  {
    hide EncodeHead, FieldsBytes, SameSlice;
    FieldsSplit(gs, [f]);
    FieldsCons([f]);
    FieldsNone();
    assert [f][1..] == [];
    var g, h, b := FieldsBytes(gs), EncodeHead(UINT, f.lbl), f.bytes;
    Nothing3(g, h, b);
    JoinThree(g, h, b, s, from);
  }

  lemma Nothing3(g: seq<byte>, h: seq<byte>, b: seq<byte>)
    ensures g + (h + b + []) == g + h + b
  {
  }

  lemma JoinThree(g: seq<byte>, h: seq<byte>, b: seq<byte>, s: seq<byte>, i: nat)
    requires SameSlice(g, 0, s, i, |g|) && SameSlice(h, 0, s, i + |g|, |h|) && SameSlice(b, 0, s, i + |g| + |h|, |b|)
    ensures SameSlice(g + h + b, 0, s, i, |g + h + b|)
  {
    StandsThere(g, s, i);
    StandsThere(h, s, i + |g|);
    StandsThere(b, s, i + |g| + |h|);
    SliceSplit(s, i, i + |g|, i + |g| + |h|);
    SliceSplit(s, i, i + |g| + |h|, i + |g| + |h| + |b|);
    assert (g + h + b)[0..|g + h + b|] == g + h + b;
  }

  /** A label is not found among those of the entries that were read before. */
  lemma PriorOk(shape: Shape, s: seq<byte>, m: nat, h: nat, gs: seq<Field>, n: nat, lbl: u64)
    requires AllTyped(shape, gs) && |gs| <= n && m + h <= |s| <= SIZE_MAX
    requires DecodeMap(s[m..], 0, true) == Ok(n, h) && (forall k :: 0 <= k < |gs| ==> gs[k].lbl != lbl)
    requires SameSlice(FieldsBytes(gs), 0, s, m + h, |FieldsBytes(gs)|)
    ensures var r := HasPrior(s[m..], h + |FieldsBytes(gs)|, Unsigned(lbl)); r.Ok? && !r.value
  {
    hide DecodeContainer, AllTyped, FieldsBytes, PriorFrom;
    var b := FieldsBytes(gs);
    Suffix(s, m, m + h, m + h + |b|);
    assert SameSlice(b, 0, s[m..], h, |b|);
    PrintedPrior(shape, gs, s[m..], h, n, lbl);
  }

  lemma TypedNotEmpty(shape: Shape, f: Field)
    requires Typed(shape, f)
    ensures |f.bytes| >= 1
  {
    hide ReadsAs, EncodeHead, IsUtf8, TfmProfile;
    match shape
    case ComponentMap =>
    case ClaimsMap =>
      if f.value.Parts? {
        PartsNotEmpty(f.bytes, f.value.cs);
      }
  }

  lemma PartsNotEmpty(raw: seq<byte>, cs: seq<Component>)
    requires ReadsAs(raw, cs)
    ensures |raw| >= 1
  {
    hide ComponentsAt, Skip;
    if |raw| <= SIZE_MAX {
      assert SameSlice(raw, 0, raw, 0, |raw|);
      assert ComponentsAt(raw, 0) == Ok(cs, |raw|);
    }
  }

  lemma {:induction false} FieldsLength(shape: Shape, fs: seq<Field>)
    requires AllTyped(shape, fs)
    ensures |FieldsBytes(fs)| >= 2 * |fs|
  {
    hide Typed, EncodeHead, FieldsBytes;
    if fs != [] {
      FieldsCons(fs);
      TypedNotEmpty(shape, fs[0]);
      FieldsLength(shape, fs[1..]);
    }
  }

  /** A container head in tolerant reading. */
  lemma ContainerRead(major: Major, n: u64, s: seq<byte>, i: nat)
    requires major == ARRAY || major == MAP
    requires SameSlice(EncodeHead(major, n), 0, s, i, HeadSize(n))
    requires i + HeadSize(n) + (if major == MAP then 2 * n else n) <= |s|
    ensures DecodeHead(s, i, true) == Ok(Item(major, n, []), i + HeadSize(n))
    ensures DecodeContainer(s, i, major, true) == Ok(n, i + HeadSize(n))
  {
    hide DecodeHead, EncodeHead, SameSlice;
    HeadRoundTrip(major, n, true, s, i);
  }

  /** A printed map is read back. */
  lemma MapParse(shape: Shape, fs: seq<Field>, s: seq<byte>, m: nat)
    requires AllTyped(shape, fs) && Sorted(fs) && |fs| < U64_BOUND && |s| <= SIZE_MAX
    requires SameSlice(MapBytes(fs), 0, s, m, |MapBytes(fs)|)
    ensures var h := HeadSize(|fs|);
      && |MapBytes(fs)| == h + |FieldsBytes(fs)| && m + |MapBytes(fs)| <= |s|
      && DecodeHead(s, m, true) == Ok(Item(MAP, |fs|, []), m + h) && DecodeMap(s, m, true) == Ok(|fs|, m + h)
      && SameSlice(FieldsBytes(fs), 0, s, m + h, |FieldsBytes(fs)|)
      && Pairs(shape, s, m, m + h, |fs|, []) == Ok(PairsOf(fs), m + |MapBytes(fs)|)
  {
    hide EncodeHead, FieldsBytes, DecodeHead, DecodeContainer, Pairs, SameSlice, AllTyped, Sorted;
    var a, b, all := EncodeHead(MAP, |fs|), FieldsBytes(fs), MapBytes(fs);
    var h := HeadSize(|fs|);
    ThreeParts(a, b, []);
    assert all == a + b + [];
    SameSliceBound(all, 0, s, m, |all|);
    Within(a, all, 0, s, m);
    Within(b, all, h, s, m);
    FieldsLength(shape, fs);
    ContainerRead(MAP, |fs|, s, m);
    SuffixMap(s, m);
    FieldsNone();
    EmptySlice(s, m + h);
    assert [] + fs == fs;
    FieldsParse(shape, s, m, h, [], fs, m + h);
  }

  lemma EmptySlice(s: seq<byte>, i: nat)
    requires i <= |s|
    ensures SameSlice([], 0, s, i, 0)
  {
  }

  // ----- Components -----

  lemma {:induction false} StrFound(fs: seq<Field>, f: Field)
    requires Sorted(fs) && f in fs && f.value.Str? && f.lbl <= INT64_MAX
    ensures StrOf(PairsOf(fs), f.lbl) == Some(f.value.data)
  {
    PairsTail(fs);
    if fs[0] != f {
      var k :| 0 <= k < |fs| && fs[k] == f;
      assert fs[0].lbl < fs[k].lbl;
      assert fs[1..][k - 1] == f;
      StrFound(fs[1..], f);
    }
  }

  lemma PairsTail(fs: seq<Field>)
    requires fs != []
    ensures PairsOf(fs)[0] == Pair(Unsigned(fs[0].lbl), fs[0].value) && PairsOf(fs)[1..] == PairsOf(fs[1..])
  {
  }

  lemma {:induction false} StrMissing(fs: seq<Field>, lbl: u64)
    requires forall f :: f in fs ==> f.lbl != lbl
    ensures StrOf(PairsOf(fs), lbl) == None
  {
    if fs != [] {
      PairsTail(fs);
      assert fs[0] in fs;
      StrMissing(fs[1..], lbl);
    }
  }

  /** An optional text among the entries. */
  lemma TextLookup(os: seq<Option<Field>>, k: nat, lbl: u64, d: Option<Bytes>)
    requires Rising(os) && k < |os| && os[k] == OptionalText(lbl, d) && lbl <= INT64_MAX
    requires forall a :: 0 <= a < |os| && a != k && os[a].Some? ==> os[a].value.lbl != lbl
    ensures StrOf(PairsOf(Present(os)), lbl) == d
  {
    hide StrOf, PairsOf, Present, Sorted, Rising, EncodeTstr;
    PresentFrom(os);
    PresentSorted(os);
    if d.Some? {
      StrFound(Present(os), TextField(lbl, d.value));
    } else {
      StrMissing(Present(os), lbl);
    }
  }

  lemma BytesLookup(os: seq<Option<Field>>, k: nat, lbl: u64, d: Bytes)
    requires Rising(os) && k < |os| && os[k] == Some(BytesField(lbl, d)) && lbl <= INT64_MAX
    ensures StrOf(PairsOf(Present(os)), lbl) == Some(d)
  {
    hide StrOf, PairsOf, Present, Sorted, Rising, EncodeBstr;
    PresentFrom(os);
    PresentSorted(os);
    StrFound(Present(os), BytesField(lbl, d));
  }

  /** Entries that are there are typed when each of the optional ones is. */
  lemma PresentTyped(shape: Shape, os: seq<Option<Field>>)
    requires forall k :: 0 <= k < |os| && os[k].Some? ==> Typed(shape, os[k].value)
    ensures AllTyped(shape, Present(os))
  {
    hide Typed, Present;
    PresentFrom(os);
  }

  lemma ComponentTyped(c: Measured)
    requires MeasuredText(c)
    ensures AllTyped(ComponentMap, Present(ComponentFields(c)))
  {
    hide Present, EncodeBstr, EncodeTstr, IsUtf8, AllTyped;
    PresentTyped(ComponentMap, ComponentFields(c));
  }

  lemma ComponentSays(c: Measured)
    ensures var fs := Present(ComponentFields(c)); Sorted(fs) && ComponentOf(PairsOf(fs)) == Read(c)
  {
    hide StrOf, PairsOf, Present, Sorted, EncodeBstr, EncodeTstr;
    var os := ComponentFields(c);
    PresentSorted(os);
    TextLookup(os, 0, 1, c.mtype);
    BytesLookup(os, 1, 2, c.value);
    TextLookup(os, 2, 4, c.version);
    BytesLookup(os, 3, 5, c.signer);
    TextLookup(os, 4, 6, c.desc);
  }

  /** The printed entries of a component: sorted, typed, and they say what the component says. */
  lemma ComponentPrinted(c: Measured)
    requires MeasuredText(c)
    ensures var fs := Present(ComponentFields(c));
      Sorted(fs) && AllTyped(ComponentMap, fs) && ComponentOf(PairsOf(fs)) == Read(c) && |fs| <= 5
  {
    hide ComponentFields, PairsOf, Present, Sorted, AllTyped, ComponentOf, MeasuredText, Read;
    ComponentTyped(c);
    ComponentSays(c);
  }

  /** The values of a component's entries are skipped within any depth. */
  lemma {:induction false} ComponentFieldsSkip(fs: seq<Field>, s: seq<byte>, i: nat, d: nat)
    requires AllTyped(ComponentMap, fs) && i <= |s|
    requires SameSlice(FieldsBytes(fs), 0, s, i, |FieldsBytes(fs)|)
    ensures SkipItems(s, i, 2 * |fs|, d, true) == Ok((), i + |FieldsBytes(fs)|)
    decreases |fs|
  {
    hide *;
    if fs == [] {
      FieldsNone();
      SkipNothing(s, i, d, true, i);
    } else {
      FieldsLayout(fs, s, i);
      var j := i + HeadSize(fs[0].lbl);
      KeyRead(fs[0].lbl, s, i);
      SkipKey(s, i, 2 * |fs|, d);
      FirstTyped(ComponentMap, fs);
      StringFieldHead(fs[0], s, j);
      SkipPlain(s, j, 2 * |fs| - 1, d, true);
      ComponentFieldsSkip(fs[1..], s, j + |fs[0].bytes|, d);
    }
  }

  lemma FirstTyped(shape: Shape, fs: seq<Field>)
    requires AllTyped(shape, fs) && fs != []
    ensures Typed(shape, fs[0]) && AllTyped(shape, fs[1..])
  {
    hide Typed;
  }

  lemma StringFieldHead(f: Field, s: seq<byte>, j: nat)
    requires Typed(ComponentMap, f) && SameSlice(f.bytes, 0, s, j, |f.bytes|)
    ensures var r := DecodeHead(s, j, true);
      && r.Ok? && r.next == j + |f.bytes| && r.value.major != TAG && r.value.major != ARRAY && r.value.major != MAP
  {
    hide DecodeHead, EncodeString, IsUtf8, SameSlice;
    StringRoundTrip(if f.lbl in {2, 5} then BSTR else TSTR, f.value.data, true, s, j);
  }

  /** A printed component is read back, and skipped to its end within one level. */
  lemma ComponentParse(c: Measured, s: seq<byte>, i: nat, d: nat)
    requires MeasuredValid(c) && MeasuredText(c) && |s| <= SIZE_MAX && d > 0
    requires SameSlice(ComponentBytes(c), 0, s, i, |ComponentBytes(c)|)
    ensures ComponentAt(s, i) == Ok(Read(c), i + |ComponentBytes(c)|)
    ensures SkipItems(s, i, 1, d, true) == Ok((), i + |ComponentBytes(c)|)
  {
    hide MapBytes, Present, SkipItems, DecodeContainer, DecodeHead, Pairs, AllTyped, Sorted, ComponentOf, SameSlice,
         FieldsBytes, MeasuredText, ComponentFields;
    var fs := Present(ComponentFields(c));
    ComponentPrinted(c);
    MapParse(ComponentMap, fs, s, i);
    var j := i + HeadSize(|fs|);
    if |fs| > 0 {
      ComponentFieldsSkip(fs, s, j, d - 1);
      FieldsLength(ComponentMap, fs);
      SkipContainer(s, i, 1, d, true);
    } else {
      FieldsNone();
      SkipPlain(s, i, 1, d, true);
    }
    SkipNothing(s, i + |ComponentBytes(c)|, d, true, i + |ComponentBytes(c)|);
  }

  lemma ComponentsCons(cs: seq<Measured>)
    requires cs != []
    ensures AllComponents(cs) == ComponentBytes(cs[0]) + AllComponents(cs[1..])
  {
    hide ComponentBytes;
  }

  predicate AllMeasured(cs: seq<Measured>) {
    forall i :: 0 <= i < |cs| ==> MeasuredValid(cs[i]) && MeasuredText(cs[i])
  }

  /** Printed components are read back in order. */
  lemma {:induction false} ComponentsParse(cs: seq<Measured>, s: seq<byte>, i: nat, before: seq<Component>, d: nat)
    requires AllMeasured(cs) && i <= |s| <= SIZE_MAX && d > 0
    requires SameSlice(AllComponents(cs), 0, s, i, |AllComponents(cs)|)
    ensures ComponentsFrom(s, i, |cs|, before) == Ok(before + ReadAll(cs), i + |AllComponents(cs)|)
    ensures SkipItems(s, i, |cs|, d, true) == Ok((), i + |AllComponents(cs)|)
    ensures |AllComponents(cs)| >= |cs|
    decreases |cs|
  {
    hide ComponentAt, ComponentBytes, AllComponents, SkipItems, SameSlice, MeasuredValid, MeasuredText, Read;
    if cs == [] {
      NoneWritten();
      SkipNothing(s, i, d, true, i);
      assert before + ReadAll(cs) == before;
    } else {
      var all, b, r := AllComponents(cs), ComponentBytes(cs[0]), AllComponents(cs[1..]);
      ComponentsCons(cs);
      ThreeParts(b, r, []);
      assert all == b + r + [];
      SameSliceBound(all, 0, s, i, |all|);
      Within(b, all, 0, s, i);
      Within(r, all, |b|, s, i);
      ComponentParse(cs[0], s, i, d);
      ComponentsParse(cs[1..], s, i + |b|, before + [Read(cs[0])], d);
      assert before + [Read(cs[0])] + ReadAll(cs[1..]) == before + ReadAll(cs);
      SkipJoin(s, i, 1, |cs| - 1, d, true);
    }
  }

  lemma NoneWritten()
    ensures AllComponents([]) == []
  {
  }

  /** The printed array of components is read back, and skipped to its end. */
  lemma PartsParse(cs: seq<Measured>, s: seq<byte>, j: nat)
    requires AllMeasured(cs) && 0 < |cs| <= MAX_COMPONENTS && |cs| < U64_BOUND && |s| <= SIZE_MAX
    requires SameSlice(ComponentsBytes(cs), 0, s, j, |ComponentsBytes(cs)|)
    ensures ComponentsAt(s, j) == Ok(ReadAll(cs), j + |ComponentsBytes(cs)|)
    ensures Skip(s, j, true) == Ok((), j + |ComponentsBytes(cs)|)
    ensures DecodeArray(s, j, true) == Ok(|cs|, j + HeadSize(|cs|))
    ensures ComponentsFrom(s, j + HeadSize(|cs|), |cs|, []) == Ok(ReadAll(cs), j + |ComponentsBytes(cs)|)
  {
    hide EncodeHead, AllComponents, SkipItems, SameSlice, AllMeasured, DecodeContainer, DecodeHead, ComponentsFrom, ReadAll;
    var a, b, all := EncodeHead(ARRAY, |cs|), AllComponents(cs), ComponentsBytes(cs);
    ThreeParts(a, b, []);
    assert all == a + b + [];
    SameSliceBound(all, 0, s, j, |all|);
    Within(a, all, 0, s, j);
    Within(b, all, |a|, s, j);
    var k := j + |a|;
    ComponentsParse(cs, s, k, [], CBOR_MAX_DEPTH - 1);
    ContainerRead(ARRAY, |cs|, s, j);
    assert [] + ReadAll(cs) == ReadAll(cs);
    SkipContainer(s, j, 1, CBOR_MAX_DEPTH, true);
    SkipNothing(s, k + |b|, CBOR_MAX_DEPTH, true, k + |b|);
  }

  lemma PartsReadAs(cs: seq<Measured>)
    requires AllMeasured(cs) && 0 < |cs| <= MAX_COMPONENTS && |cs| < U64_BOUND
    ensures ReadsAs(ComponentsBytes(cs), ReadAll(cs))
  {
    hide ComponentsBytes, AllMeasured, ComponentsAt, Skip, ReadAll, SameSlice;
    var raw := ComponentsBytes(cs);
    forall s: seq<byte>, j: nat | |s| <= SIZE_MAX && SameSlice(raw, 0, s, j, |raw|)
      ensures ComponentsAt(s, j) == Ok(ReadAll(cs), j + |raw|) && Skip(s, j, true) == Ok((), j + |raw|)
    {
      PartsParse(cs, s, j);
    }
  }

  // ----- Claims -----

  lemma ClaimsTyped(c: Claims)
    requires ClaimsValid(c) && ClaimsText(c)
    ensures AllTyped(ClaimsMap, Present(ClaimFields(c))) && |Present(ClaimFields(c))| <= 10
  {
    hide Present, EncodeBstr, EncodeTstr, IsUtf8, AllTyped, ReadsAs, EncodeHead, EncodeInt, ComponentsBytes, ReadAll,
         TfmProfile, CertRefValid, HashLength, MeasuredText, MeasuredValid;
    PartsReadAs(c.components);
    ProfileIsText();
    PresentTyped(ClaimsMap, ClaimFields(c));
  }

  lemma ProfileIsText()
    ensures IsUtf8(TfmProfile()) && |TfmProfile()| <= SIZE_MAX
  {
    AsciiText(TfmProfile(), 0);
  }

  lemma {:induction false} AsciiText(s: seq<byte>, i: nat)
    requires i <= |s| && forall k :: 0 <= k < |s| ==> s[k] < 0x80
    ensures Utf8From(s, i)
    decreases |s| - i
  {
    if i < |s| {
      AsciiText(s, i + 1);
    }
  }

  lemma {:induction false} FindFound(fs: seq<Field>, f: Field)
    requires Sorted(fs) && AllTyped(ClaimsMap, fs) && f in fs
    ensures FindClaim(PairsOf(fs), ClaimNamed(f.lbl)) == Some(f.value) && Seen(PairsOf(fs), ClaimNamed(f.lbl))
  {
    hide Typed, KnownOf, ClaimNamed;
    PairsTail(fs);
    TypedIsKnown(fs[0]);
    var ps := PairsOf(fs);
    var k :| 0 <= k < |fs| && fs[k] == f;
    TypedIsKnown(fs[k]);
    assert KnownOf(ps[k].key) == Some(Known(ClaimNamed(f.lbl), false));
    if k > 0 {
      assert fs[0].lbl < fs[k].lbl;
      MaskIsRedundant(Unsigned(fs[0].lbl), Unsigned(f.lbl));
      assert fs[1..][k - 1] == f;
      FindFound(fs[1..], f);
    }
  }

  lemma {:induction false} FindMissing(fs: seq<Field>, claim: Claim)
    requires AllTyped(ClaimsMap, fs) && forall f :: f in fs ==> ClaimNamed(f.lbl) != claim
    ensures FindClaim(PairsOf(fs), claim) == None
  {
    hide Typed, KnownOf, ClaimNamed;
    if fs != [] {
      PairsTail(fs);
      TypedIsKnown(fs[0]);
      assert fs[0] in fs;
      FindMissing(fs[1..], claim);
    }
  }

  /** An entry among those that are there. */
  lemma ClaimFound(os: seq<Option<Field>>, k: nat, f: Field, claim: Claim)
    requires Rising(os) && AllTyped(ClaimsMap, Present(os)) && k < |os| && os[k] == Some(f) && ClaimNamed(f.lbl) == claim
    ensures FindClaim(PairsOf(Present(os)), claim) == Some(f.value) && Seen(PairsOf(Present(os)), claim)
  {
    hide FindClaim, PairsOf, Present, Sorted, Rising, AllTyped, ClaimNamed, Seen;
    PresentFrom(os);
    PresentSorted(os);
    FindFound(Present(os), f);
  }

  lemma ClaimMissing(os: seq<Option<Field>>, claim: Claim)
    requires AllTyped(ClaimsMap, Present(os))
    requires forall a :: 0 <= a < |os| && os[a].Some? ==> ClaimNamed(os[a].value.lbl) != claim
    ensures FindClaim(PairsOf(Present(os)), claim) == None
  {
    hide FindClaim, PairsOf, Present, AllTyped, ClaimNamed;
    PresentFrom(os);
    FindMissing(Present(os), claim);
  }

  /** Printed claims are all of the current namespace. */
  lemma PrintedCurrent(fs: seq<Field>)
    requires AllTyped(ClaimsMap, fs) && fs != []
    ensures Mixed(PairsOf(fs), true) && !Mixed(PairsOf(fs), false)
  {
    hide Typed, KnownOf, ClaimNamed;
    forall k | 0 <= k < |fs|
      ensures KnownOf(PairsOf(fs)[k].key) == Some(Known(ClaimNamed(fs[k].lbl), false))
    {
      TypedIsKnown(fs[k]);
    }
    assert KnownOf(PairsOf(fs)[0].key).Some?;
  }

  lemma ClaimsRising(c: Claims)
    requires InInt32(c.clientId) && c.lifecycle <= 0xFFFF && |c.components| < U64_BOUND
    ensures Rising(ClaimFields(c))
  {
    hide EncodeBstr, EncodeTstr, EncodeHead, EncodeInt, ComponentsBytes, ReadAll, TfmProfile;
  }

  lemma ClaimNames()
    ensures ClaimNamed(10) == Nonce && ClaimNamed(256) == Ueid && ClaimNamed(265) == Profile && ClaimNamed(268) == BootSeed
    ensures ClaimNamed(2394) == ClientId && ClaimNamed(2395) == Lifecycle && ClaimNamed(2396) == Implementation
    ensures ClaimNamed(2398) == CertRef && ClaimNamed(2399) == Components && ClaimNamed(2400) == Vsi
  {
  }

  /** The claims that are required are found. */
  lemma RequiredFound(c: Claims)
    requires ClaimsValid(c) && AllTyped(ClaimsMap, Present(ClaimFields(c)))
    ensures var ps := PairsOf(Present(ClaimFields(c)));
      && StrClaim(ps, Nonce) == Some(c.nonce) && StrClaim(ps, Ueid) == Some(c.ueid)
      && StrClaim(ps, Implementation) == Some(c.implementation)
      && NumClaim(ps, ClientId) == c.clientId && NumClaim(ps, Lifecycle) == c.lifecycle
      && FindClaim(ps, Components) == Some(Parts(ReadAll(c.components), ComponentsBytes(c.components)))
      && AllSeen(ps, CURRENT_REQUIRED)
  {
    hide FindClaim, PairsOf, Present, Rising, AllTyped, ClaimNamed, Seen, EncodeBstr, EncodeTstr, EncodeHead, EncodeInt,
         ComponentsBytes, ReadAll, TfmProfile, CertRefValid, HashLength, MeasuredValid;
    var os := ClaimFields(c);
    ClaimsRising(c);
    ClaimNames();
    ClaimFound(os, 0, os[0].value, Nonce);
    ClaimFound(os, 1, os[1].value, Ueid);
    ClaimFound(os, 2, os[2].value, Profile);
    ClaimFound(os, 4, os[4].value, ClientId);
    ClaimFound(os, 5, os[5].value, Lifecycle);
    ClaimFound(os, 6, os[6].value, Implementation);
    ClaimFound(os, 8, os[8].value, Components);
  }

  /** An optional claim is found when it is there, and only then. */
  lemma OptionalFound(c: Claims, k: nat, claim: Claim, d: Option<Bytes>)
    requires ClaimsValid(c) && AllTyped(ClaimsMap, Present(ClaimFields(c))) && k < 10
    requires var o := ClaimFields(c)[k]; if d.Some? then o.Some? && o.value.value == Str(d.value) else o.None?
    requires claim == [Nonce, Ueid, Profile, BootSeed, ClientId, Lifecycle, Implementation, CertRef, Components, Vsi][k]
    ensures StrClaim(PairsOf(Present(ClaimFields(c))), claim) == d
  {
    hide FindClaim, PairsOf, Present, Rising, AllTyped, ClaimNamed, Seen, EncodeBstr, EncodeTstr, EncodeHead, EncodeInt,
         ComponentsBytes, ReadAll, TfmProfile, CertRefValid, HashLength, MeasuredValid;
    var os := ClaimFields(c);
    ClaimsRising(c);
    ClaimNames();
    if d.Some? {
      ClaimFound(os, k, os[k].value, claim);
    } else {
      ClaimMissing(os, claim);
    }
  }

  /** No statement that there are no measurements is printed. */
  lemma NoStatement(c: Claims)
    requires ClaimsValid(c) && AllTyped(ClaimsMap, Present(ClaimFields(c)))
    ensures NumClaim(PairsOf(Present(ClaimFields(c))), NoMeasurements) == 0
  {
    hide FindClaim, PairsOf, Present, Rising, AllTyped, ClaimNamed, Seen, EncodeBstr, EncodeTstr, EncodeHead, EncodeInt,
         ComponentsBytes, ReadAll, TfmProfile, CertRefValid, HashLength, MeasuredValid;
    ClaimNames();
    ClaimMissing(ClaimFields(c), NoMeasurements);
  }

  /** What is read of printed claims: they are complete, and say what the caller said. */
  lemma ClaimsSay(c: Claims)
    requires ClaimsValid(c) && AllTyped(ClaimsMap, Present(ClaimFields(c)))
    ensures var ps := PairsOf(Present(ClaimFields(c)));
      && MapStatus(ps).Success? && !Mixed(ps, false) && TokenOf(ps, false) == TokenFor(c) && FieldsValid(TokenFor(c))
  {
    hide FindClaim, PairsOf, Present, AllTyped, StrClaim, NumClaim, Seen, AllSeen, Mixed, ComponentsBytes, ReadAll,
         CertRefValid;
    RequiredFound(c);
    NoStatement(c);
    OptionalClaims(c);
    PresentFrom(ClaimFields(c));
    NotEmpty(c);
    PrintedCurrent(Present(ClaimFields(c)));
    hide ClaimFields;
  }

  lemma NotEmpty(c: Claims)
    requires ClaimsValid(c)
    ensures Present(ClaimFields(c)) != []
  {
    hide Present, EncodeBstr, EncodeTstr, EncodeHead, EncodeInt, ComponentsBytes, ReadAll, TfmProfile;
    PresentFrom(ClaimFields(c));
    assert ClaimFields(c)[0].Some?;
  }

  lemma OptionalClaims(c: Claims)
    requires ClaimsValid(c) && AllTyped(ClaimsMap, Present(ClaimFields(c)))
    ensures var ps := PairsOf(Present(ClaimFields(c)));
      StrClaim(ps, BootSeed) == c.bootSeed && StrClaim(ps, CertRef) == c.certRef && StrClaim(ps, Vsi) == c.vsi
  {
    hide PairsOf, Present, AllTyped, StrClaim, ComponentsBytes, ReadAll, TfmProfile, CertRefValid,
         HashLength, MeasuredValid, EncodeBstr, EncodeTstr, EncodeHead, EncodeInt;
    OptionalFound(c, 3, BootSeed, c.bootSeed);
    OptionalFound(c, 7, CertRef, c.certRef);
    OptionalFound(c, 9, Vsi, c.vsi);
  }

  /** Printing claims and parsing them gives the same claims, and iterating over the components of
      the token gives the same components in the same order. */
  lemma ClaimsRoundTrip(c: Claims)
    requires ClaimsValid(c) && ClaimsText(c) && |ClaimsBytes(c)| <= SIZE_MAX
    ensures DecodeClaims(ClaimsBytes(c)) == Ok(TokenFor(c), |ClaimsBytes(c)|)
    ensures StoredComponents(TokenFor(c)) == Ok(ReadAll(c.components), |ComponentsBytes(c.components)|)
  {
    hide MapBytes, Present, PairsOf, Pairs, DecodeContainer, AllTyped, Sorted, ClaimFields, TokenOf, TokenFor, FieldsValid,
         MapStatus, Mixed, ClaimsText, HashLength, MeasuredValid, CertRefValid, SameSlice, DecodeHead;
    var os := ClaimFields(c);
    var s := ClaimsBytes(c);
    ClaimsTyped(c);
    ClaimsRising(c);
    PresentSorted(os);
    WholeItself(s);
    MapParse(ClaimsMap, Present(os), s, 0);
    ClaimsSay(c);
    PartsWithin(c);
    StoredParse(c);
  }

  lemma {:induction false} FieldWithin(fs: seq<Field>, f: Field)
    requires f in fs
    ensures |f.bytes| <= |FieldsBytes(fs)|
  {
    hide EncodeHead, FieldsBytes;
    FieldsCons(fs);
    if f != fs[0] {
      assert f in fs[1..];
      FieldWithin(fs[1..], f);
    }
  }

  lemma PartsWithin(c: Claims)
    requires ClaimsValid(c)
    ensures |ComponentsBytes(c.components)| <= |ClaimsBytes(c)|
  {
    hide Present, EncodeBstr, EncodeTstr, EncodeHead, EncodeInt, ComponentsBytes, ReadAll, TfmProfile, FieldsBytes;
    var os := ClaimFields(c);
    PresentFrom(os);
    FieldWithin(Present(os), os[8].value);
  }

  lemma WholeItself(s: seq<byte>)
    ensures SameSlice(s, 0, s, 0, |s|)
  {
  }

  lemma StoredParse(c: Claims)
    requires ClaimsValid(c) && ClaimsText(c) && |ComponentsBytes(c.components)| <= SIZE_MAX
    ensures StoredComponents(TokenFor(c)) == Ok(ReadAll(c.components), |ComponentsBytes(c.components)|)
  {
    hide ComponentsBytes, ComponentsFrom, DecodeContainer, ReadAll, HashLength, MeasuredText, CertRefValid,
         SameSlice, ComponentsAt, Skip;
    var b := ComponentsBytes(c.components);
    WholeItself(b);
    PartsParse(c.components, b, 0);
  }
}
