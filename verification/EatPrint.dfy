/**
 Printing PSA claims as the library does, proved to write the bytes of EatRoundTrip.dfy.
 */
module EatPrint {
  import opened Wire
  import opened Utf8
  import opened Memory
  import opened Cbor
  import opened CborRoundTrip
  import opened CborEncoder
  import opened Header
  import opened CountersignAdd
  import opened Eat
  import opened EatRoundTrip

  /** The bytes of one entry that may be there. */
  function EntryBytes(o: Option<Field>): (b: seq<byte>) {
    match o { case None => [] case Some(f) => EncodeHead(UINT, f.lbl) + f.bytes }
  }

  /** The bytes of the first `k` entries. */
  function FirstBytes(os: seq<Option<Field>>, k: nat): (b: seq<byte>)
    requires k <= |os|
  {
    FieldsBytes(Present(os[..k]))
  }

  lemma {:induction false} PresentNext(os: seq<Option<Field>>, o: Option<Field>)
    ensures FieldsBytes(Present(os + [o])) == FieldsBytes(Present(os)) + EntryBytes(o)
  {
    hide EncodeHead, FieldsBytes, Present, EntryBytes;
    if os == [] {
      PresentOne(o);
    } else {
      PresentNext(os[1..], o);
      assert (os + [o])[1..] == os[1..] + [o] && (os + [o])[0] == os[0];
      PresentCons(os);
      PresentCons(os + [o]);
      var h := if os[0].Some? then [os[0].value] else [];
      assert Present(os) == h + Present(os[1..]) && Present(os + [o]) == h + Present(os[1..] + [o]);
      FieldsSplit(h, Present(os[1..]));
      FieldsSplit(h, Present(os[1..] + [o]));
    }
  }

  lemma PresentOne(o: Option<Field>)
    ensures [] + [o] == [o] && FieldsBytes(Present([])) == [] && FieldsBytes(Present([o])) == EntryBytes(o)
  {
    hide EncodeHead, FieldsBytes;
    FieldsNone();
    assert [o][1..] == [] && Present<Field>([]) == [];
    if o.Some? {
      assert Present([o]) == [o.value];
      FieldsCons([o.value]);
      assert [o.value][1..] == [];
    }
  }

  /** One more entry, and what it takes of the room for all. */
  lemma Stage(os: seq<Option<Field>>, k: nat)
    requires k < |os|
    ensures FirstBytes(os, k + 1) == FirstBytes(os, k) + EntryBytes(os[k])
    ensures |FirstBytes(os, k + 1)| <= |FieldsBytes(Present(os))|
  {
    hide EncodeHead, FieldsBytes, Present, EntryBytes;
    assert os[..k + 1] == os[..k] + [os[k]];
    PresentNext(os[..k], os[k]);
    StageRoom(os, k + 1);
  }

  lemma {:induction false} StageRoom(os: seq<Option<Field>>, k: nat)
    requires k <= |os|
    ensures |FirstBytes(os, k)| <= |FieldsBytes(Present(os))|
    decreases |os| - k
  {
    hide EncodeHead, FieldsBytes, Present, EntryBytes;
    if k < |os| {
      assert os[..k + 1] == os[..k] + [os[k]];
      PresentNext(os[..k], os[k]);
      StageRoom(os, k + 1);
    } else {
      assert os[..k] == os;
    }
  }

  lemma NoEntries(os: seq<Option<Field>>)
    ensures FirstBytes(os, 0) == [] && FirstBytes(os, |os|) == FieldsBytes(Present(os))
  {
    hide EncodeHead, FieldsBytes;
    FieldsNone();
    assert os[..0] == [] && os[..|os|] == os;
  }

  // ----- Entries -----

  /** The first `k` entries were written behind `w`, from index `start` on. */
  ghost predicate Reached(ctx: Encoder, os: seq<Option<Field>>, k: nat, w: seq<byte>, start: nat)
    requires k <= |os|
    reads ctx
  {
    ctx.written == w + FirstBytes(os, k) && ctx.idx == start + |FirstBytes(os, k)|
  }

  /** There is no room for all entries. */
  ghost predicate Crowded(ctx: Encoder, os: seq<Option<Field>>, start: nat)
  {
    start + |FieldsBytes(Present(os))| > ctx.bufSz
  }

  method EncodeBytesEntry(ctx: Encoder, lbl: u64, d: Option<Bytes>, ghost os: seq<Option<Field>>, ghost k: nat,
                          ghost w: seq<byte>, ghost start: nat) returns (ret: Status)
    requires ctx.Valid() && k < |os| && Reached(ctx, os, k, w, start) && os[k] == OptionalBytes(lbl, d)
    modifies ctx`idx, ctx`written, ctx.buf
    ensures ctx.Valid()
    ensures ret.Success? ==> Reached(ctx, os, k + 1, w, start)
    ensures ret.Fail? ==> ret == Fail(BufferTooSmall) && Crowded(ctx, os, start)
  {
    hide Encoder.Valid, EncodeHead, EncodeBstr, HeadSize, FirstBytes, FieldsBytes, Present;
    ret := Success;
    Stage(os, k);
    if d.Some? {
      Behind(ctx.written, EncodeHead(UINT, lbl), EncodeBstr(d.value));
      ret := ctx.EncodeUint(lbl);
      if ret.Success? {
        ret := ctx.EncodeBstr(d.value);
      }
    }
    Behind(w, FirstBytes(os, k), EntryBytes(os[k]));
  }

  method EncodeTextEntry(ctx: Encoder, lbl: u64, d: Option<Bytes>, ghost os: seq<Option<Field>>, ghost k: nat,
                         ghost w: seq<byte>, ghost start: nat) returns (ret: Status)
    requires ctx.Valid() && k < |os| && Reached(ctx, os, k, w, start) && os[k] == OptionalText(lbl, d)
    modifies ctx`idx, ctx`written, ctx.buf
    ensures ctx.Valid()
    ensures ret.Success? ==> Reached(ctx, os, k + 1, w, start)
    ensures ret.Fail? && TextOk(d) ==> ret == Fail(BufferTooSmall) && Crowded(ctx, os, start)
    ensures !TextOk(d) ==> ret.Fail?
  {
    hide Encoder.Valid, EncodeHead, EncodeTstr, HeadSize, FirstBytes, FieldsBytes, Present, IsUtf8;
    ret := Success;
    Stage(os, k);
    if d.Some? {
      Behind(ctx.written, EncodeHead(UINT, lbl), EncodeTstr(d.value));
      ret := ctx.EncodeUint(lbl);
      if ret.Success? {
        ret := ctx.EncodeTstr(d.value);
      }
    }
    Behind(w, FirstBytes(os, k), EntryBytes(os[k]));
  }

  /** An entry whose value is a number. */
  method EncodeNumberEntry(ctx: Encoder, lbl: u64, n: i64, ghost os: seq<Option<Field>>, ghost k: nat,
                           ghost w: seq<byte>, ghost start: nat) returns (ret: Status)
    requires ctx.Valid() && k < |os| && Reached(ctx, os, k, w, start) && os[k] == Some(Field(lbl, EncodeInt(n), Num(n)))
    modifies ctx`idx, ctx`written, ctx.buf
    ensures ctx.Valid()
    ensures ret.Success? ==> Reached(ctx, os, k + 1, w, start)
    ensures ret.Fail? ==> ret == Fail(BufferTooSmall) && Crowded(ctx, os, start)
  {
    hide Encoder.Valid, EncodeHead, EncodeInt, HeadSize, FirstBytes, FieldsBytes, Present;
    Stage(os, k);
    Behind(ctx.written, EncodeHead(UINT, lbl), EncodeInt(n));
    ret := ctx.EncodeUint(lbl);
    if ret.Success? {
      ret := ctx.EncodeInt(n);
    }
    Behind(w, FirstBytes(os, k), EntryBytes(os[k]));
  }

  lemma Begin(ctx: Encoder, os: seq<Option<Field>>)
    ensures Reached(ctx, os, 0, ctx.written, ctx.idx)
  {
    hide FieldsBytes, Present;
    NoEntries(os);
    Nothing(ctx.written);
  }

  /** All entries were written. */
  lemma Complete(ctx: Encoder, os: seq<Option<Field>>, w: seq<byte>, start: nat)
    requires Reached(ctx, os, |os|, w, start)
    ensures ctx.written == w + FieldsBytes(Present(os)) && ctx.idx == start + |FieldsBytes(Present(os))|
  {
    hide FieldsBytes, Present;
    NoEntries(os);
  }

  /** `wolfCose_EatPsaEncodeComponent`. */
  method EncodeComponent(ctx: Encoder, c: Measured) returns (ret: Status)
    requires ctx.Valid()
    modifies ctx`idx, ctx`written, ctx.buf
    ensures ctx.Valid()
    ensures var b := ComponentBytes(c);
      && (MeasuredText(c) ==> ret == if old(ctx.idx) + |b| <= ctx.bufSz then Success else Fail(BufferTooSmall))
      && (!MeasuredText(c) ==> ret.Fail?)
      && (ret.Success? ==> ctx.written == old(ctx.written) + b && ctx.idx == old(ctx.idx) + |b|)
  {
    hide Encoder.Valid, EncodeHead, EncodeTstr, EncodeBstr, HeadSize, FieldsBytes, Present, TextOk, Reached;
    ghost var os := ComponentFields(c);
    ghost var w, h := ctx.written, EncodeHead(MAP, |Present(os)|);
    ComponentCount(c);
    var count := 2 + (if c.mtype.Some? then 1 else 0) + (if c.version.Some? then 1 else 0) + (if c.desc.Some? then 1 else 0);
    ret := ctx.EncodeMapStart(count);
    if ret.Fail? {
      return;
    }
    ghost var v, start := ctx.written, ctx.idx;
    Begin(ctx, os);
    ret := EncodeTextEntry(ctx, 1, c.mtype, os, 0, v, start);
    if ret.Success? {
      ret := EncodeBytesEntry(ctx, 2, Some(c.value), os, 1, v, start);
    }
    if ret.Success? {
      ret := EncodeTextEntry(ctx, 4, c.version, os, 2, v, start);
    }
    if ret.Success? {
      ret := EncodeBytesEntry(ctx, 5, Some(c.signer), os, 3, v, start);
    }
    if ret.Success? {
      ret := EncodeTextEntry(ctx, 6, c.desc, os, 4, v, start);
    }
    if ret.Success? {
      Complete(ctx, os, v, start);
      ctx.Done();
      Behind(w, h, FieldsBytes(Present(os)));
    }
  }

  lemma ComponentCount(c: Measured)
    ensures |Present(ComponentFields(c))|
         == 2 + (if c.mtype.Some? then 1 else 0) + (if c.version.Some? then 1 else 0) + (if c.desc.Some? then 1 else 0)
  {
    hide EncodeBstr, EncodeTstr, Present, Absent;
    var os := ComponentFields(c);
    CountPresent(os);
    AbsentFrom(os, 0);
    AbsentFrom(os, 1);
    AbsentFrom(os, 2);
    AbsentFrom(os, 3);
    AbsentFrom(os, 4);
    AbsentFrom(os, 5);
    assert os[0..] == os;
  }

  lemma AbsentFrom(os: seq<Option<Field>>, k: nat)
    requires k <= |os|
    ensures Absent(os[k..])
         == if k == |os| then 0 else (if os[k].None? then 1 else 0) + Absent(os[k + 1..])
  {
    assert k < |os| ==> os[k..][1..] == os[k + 1..];
  }

  /** How many entries are not there. */
  function Absent(os: seq<Option<Field>>): (n: nat) {
    if os == [] then 0 else (if os[0].None? then 1 else 0) + Absent(os[1..])
  }

  lemma {:induction false} CountPresent(os: seq<Option<Field>>)
    ensures |Present(os)| + Absent(os) == |os|
  {
    if os != [] {
      CountPresent(os[1..]);
    }
  }

  // ----- Claims -----

  /** The array of components. */
  method EncodeComponents(ctx: Encoder, cs: seq<Measured>) returns (ret: Status)
    requires ctx.Valid() && |cs| < U64_BOUND
    modifies ctx`idx, ctx`written, ctx.buf
    ensures ctx.Valid()
    ensures var b := ComponentsBytes(cs);
      && (AllText(cs) ==> ret == if old(ctx.idx) + |b| <= ctx.bufSz then Success else Fail(BufferTooSmall))
      && (!AllText(cs) ==> ret.Fail?)
      && (ret.Success? ==> ctx.written == old(ctx.written) + b && ctx.idx == old(ctx.idx) + |b|)
  {
    hide Encoder.Valid, EncodeHead, HeadSize, ComponentBytes, AllComponents, MeasuredText;
    ghost var w, h := ctx.written, EncodeHead(ARRAY, |cs|);
    NoneWritten();
    Nothing(w + h);
    ret := ctx.EncodeArrayStart(|cs|);
    ctx.Done();
    ghost var start := ctx.idx;
    var i := 0;
    while ret.Success? && i < |cs|
      invariant 0 <= i <= |cs| && ctx.Valid()
      invariant ret.Success? ==>
        && AllText(cs[..i]) && ctx.written == w + h + AllComponents(cs[..i])
        && ctx.idx == start + |AllComponents(cs[..i])| <= ctx.bufSz
      invariant ret.Fail? ==>
        if AllText(cs) then ret == Fail(BufferTooSmall) && old(ctx.idx) + |ComponentsBytes(cs)| > ctx.bufSz else true
      decreases ret.Success?, |cs| - i
    {
      assert cs[..i + 1] == cs[..i] + [cs[i]] && cs == cs[..i + 1] + cs[i + 1..];
      ComponentsNext(cs[..i], cs[i]);
      ComponentsSplit(cs[..i + 1], cs[i + 1..]);
      Behind(w + h, AllComponents(cs[..i]), ComponentBytes(cs[i]));
      ret := EncodeComponent(ctx, cs[i]);
      i := i + 1;
    }
    assert cs[..|cs|] == cs;
    Behind(w, h, AllComponents(cs));
  }

  predicate AllText(cs: seq<Measured>) {
    forall i :: 0 <= i < |cs| ==> MeasuredText(cs[i])
  }

  lemma {:induction false} ComponentsSplit(cs: seq<Measured>, ds: seq<Measured>)
    ensures AllComponents(cs + ds) == AllComponents(cs) + AllComponents(ds)
  {
    hide ComponentBytes, AllComponents;
    if cs == [] {
      NoneWritten();
      assert cs + ds == ds;
    } else {
      ComponentsSplit(cs[1..], ds);
      ComponentsCons(cs);
      ComponentsCons(cs + ds);
      assert (cs + ds)[0] == cs[0] && (cs + ds)[1..] == cs[1..] + ds;
    }
  }

  lemma ComponentsNext(cs: seq<Measured>, c: Measured)
    ensures AllComponents(cs + [c]) == AllComponents(cs) + ComponentBytes(c)
  {
    hide ComponentBytes, AllComponents;
    ComponentsSplit(cs, [c]);
    ComponentsCons([c]);
    NoneWritten();
    assert [c][1..] == [];
  }

  /** What the encoder needs of the claims. */
  predicate Encodable(c: Claims) {
    InInt32(c.clientId) && c.lifecycle <= 0xFFFF && |c.components| < U64_BOUND
  }

  /** The entries up to the lifecycle. */
  method EncodeFrontClaims(ctx: Encoder, c: Claims, ghost os: seq<Option<Field>>, ghost w: seq<byte>, ghost start: nat)
    returns (ret: Status)
    requires Encodable(c) && os == ClaimFields(c) && ctx.Valid() && Reached(ctx, os, 0, w, start)
    modifies ctx`idx, ctx`written, ctx.buf
    ensures ctx.Valid()
    ensures ret.Success? ==> Reached(ctx, os, 6, w, start)
    ensures ret.Fail? ==> ret == Fail(BufferTooSmall) && Crowded(ctx, os, start)
  {
    hide Encoder.Valid, EncodeHead, EncodeTstr, EncodeBstr, EncodeInt, HeadSize, TextOk, FieldsBytes, Present, Reached,
         Crowded, ComponentsBytes, ReadAll, TfmProfile;
    LifecycleBytes(c.lifecycle);
    ProfileEntry();
    ret := EncodeBytesEntry(ctx, 10, Some(c.nonce), os, 0, w, start);
    if ret.Success? {
      ret := EncodeBytesEntry(ctx, 256, Some(c.ueid), os, 1, w, start);
    }
    if ret.Success? {
      ret := EncodeTextEntry(ctx, 265, Some(TfmProfile()), os, 2, w, start);
    }
    if ret.Success? {
      ret := EncodeBytesEntry(ctx, 268, c.bootSeed, os, 3, w, start);
    }
    if ret.Success? {
      ret := EncodeNumberEntry(ctx, 2394, c.clientId, os, 4, w, start);
    }
    if ret.Success? {
      ret := EncodeNumberEntry(ctx, 2395, c.lifecycle, os, 5, w, start);
    }
  }

  lemma LifecycleBytes(n: nat)
    requires n <= 0xFFFF
    ensures EncodeInt(n) == EncodeHead(UINT, n)
  {
  }

  lemma ProfileEntry()
    ensures |TfmProfile()| <= SIZE_MAX
    ensures TextOk(Some(TfmProfile())) && OptionalText(265, Some(TfmProfile())) == Some(ProfileField())
  {
    ProfileIsText();
  }

  /** The entry of the components. */
  method EncodeComponentsEntry(ctx: Encoder, cs: seq<Measured>, ghost os: seq<Option<Field>>, ghost k: nat,
                               ghost w: seq<byte>, ghost start: nat) returns (ret: Status)
    requires |cs| < U64_BOUND && ctx.Valid() && k < |os| && Reached(ctx, os, k, w, start)
    requires os[k] == Some(Field(2399, ComponentsBytes(cs), Parts(ReadAll(cs), ComponentsBytes(cs))))
    modifies ctx`idx, ctx`written, ctx.buf
    ensures ctx.Valid()
    ensures ret.Success? ==> Reached(ctx, os, k + 1, w, start)
    ensures ret.Fail? && AllText(cs) ==> ret == Fail(BufferTooSmall) && Crowded(ctx, os, start)
    ensures !AllText(cs) ==> ret.Fail?
  {
    hide Encoder.Valid, EncodeHead, ComponentsBytes, HeadSize, FirstBytes, FieldsBytes, Present, AllText, ReadAll;
    Stage(os, k);
    Behind(ctx.written, EncodeHead(UINT, 2399), ComponentsBytes(cs));
    ret := ctx.EncodeUint(2399);
    if ret.Success? {
      ret := EncodeComponents(ctx, cs);
    }
    Behind(w, FirstBytes(os, k), EntryBytes(os[k]));
  }

  /** The entries behind the lifecycle. */
  method EncodeBackClaims(ctx: Encoder, c: Claims, ghost os: seq<Option<Field>>, ghost w: seq<byte>, ghost start: nat)
    returns (ret: Status)
    requires Encodable(c) && os == ClaimFields(c) && ctx.Valid() && Reached(ctx, os, 6, w, start)
    modifies ctx`idx, ctx`written, ctx.buf
    ensures ctx.Valid()
    ensures ret.Success? ==> Reached(ctx, os, 10, w, start)
    ensures ret.Fail? && ClaimsText(c) ==> ret == Fail(BufferTooSmall) && Crowded(ctx, os, start)
    ensures !ClaimsText(c) ==> ret.Fail?
  {
    hide Encoder.Valid, EncodeHead, EncodeTstr, EncodeBstr, EncodeInt, HeadSize, TextOk, FieldsBytes, Present, Reached,
         Crowded, ComponentsBytes, ReadAll, TfmProfile, MeasuredText;
    ret := EncodeBytesEntry(ctx, 2396, Some(c.implementation), os, 6, w, start);
    if ret.Success? {
      ret := EncodeTextEntry(ctx, 2398, c.certRef, os, 7, w, start);
    }
    if ret.Success? {
      ret := EncodeComponentsEntry(ctx, c.components, os, 8, w, start);
    }
    if ret.Success? {
      ret := EncodeTextEntry(ctx, 2400, c.vsi, os, 9, w, start);
    }
  }

  /** Which of the claims are there. */
  lemma ClaimsThere(c: Claims)
    requires Encodable(c)
    ensures var os := ClaimFields(c);
      && os[0].Some? && os[1].Some? && os[2].Some? && os[4].Some? && os[5].Some? && os[6].Some? && os[8].Some?
      && os[3].Some? == c.bootSeed.Some? && os[7].Some? == c.certRef.Some? && os[9].Some? == c.vsi.Some?
  {
    hide EncodeBstr, EncodeTstr, EncodeHead, EncodeInt, ComponentsBytes, ReadAll, TfmProfile;
  }

  lemma ClaimCount(c: Claims)
    requires Encodable(c)
    ensures |Present(ClaimFields(c))|
         == 7 + (if c.bootSeed.Some? then 1 else 0) + (if c.certRef.Some? then 1 else 0) + (if c.vsi.Some? then 1 else 0)
  {
    hide Present, Absent, ClaimFields;
    var os := ClaimFields(c);
    ClaimsThere(c);
    CountPresent(os);
    AbsentFrom(os, 0);
    AbsentFrom(os, 1);
    AbsentFrom(os, 2);
    AbsentFrom(os, 3);
    AbsentFrom(os, 4);
    AbsentFrom(os, 5);
    AbsentFrom(os, 6);
    AbsentFrom(os, 7);
    AbsentFrom(os, 8);
    AbsentFrom(os, 9);
    AbsentFrom(os, 10);
    assert os[0..] == os;
  }

  /** `wolfCose_EatPsaValidateClaims`. */
  method ValidateClaims(c: Claims) returns (ret: Status)
    ensures ret == if ClaimsValid(c) then Success else Fail(EatPsaClaim)
  {
    hide CertRefValid, HashLength, LifecycleValid;
    ret := Success;
    if !HashLength(c.nonce) || |c.ueid| != 33 || c.ueid[0] != 1 || |c.implementation| != 32 || !InInt32(c.clientId)
       || c.clientId == 0 || !LifecycleValid(c.lifecycle) || |c.components| == 0 || |c.components| > MAX_COMPONENTS {
      ret := Fail(EatPsaClaim);
    }
    if ret.Success? && ((c.bootSeed.Some? && (|c.bootSeed.value| < 8 || |c.bootSeed.value| > 32))
                        || (c.certRef.Some? && !CertRefValid(c.certRef.value, false))) {
      ret := Fail(EatPsaClaim);
    }
    var i := 0;
    while ret.Success? && i < |c.components|
      invariant 0 <= i <= |c.components|
      invariant ret.Success? ==> forall k :: 0 <= k < i ==> MeasuredValid(c.components[k])
      invariant ret.Fail? ==> ret == Fail(EatPsaClaim) && !ClaimsValid(c)
      decreases ret.Success?, |c.components| - i
    {
      if !HashLength(c.components[i].value) || !HashLength(c.components[i].signer) {
        ret := Fail(EatPsaClaim);
      }
      i := i + 1;
    }
  }

  /** `wc_CoseEatPsaToken_EncodeClaims`. */
  method EncodeClaims(c: Claims, out: array<byte>) returns (ret: Status, outLen: nat)
    modifies out
    ensures !ClaimsValid(c) ==> ret == Fail(EatPsaClaim) && out[..] == old(out[..])
    ensures ClaimsValid(c) ==>
      && (ClaimsText(c) ==> ret == if |ClaimsBytes(c)| <= out.Length then Success else Fail(BufferTooSmall))
      && (!ClaimsText(c) ==> ret.Fail?)
      && (ret.Success? ==> outLen == |ClaimsBytes(c)| <= out.Length && out[..outLen] == ClaimsBytes(c))
    ensures ret.Fail? ==> outLen == 0
  {
    hide ClaimsBytes, ClaimsText, HashLength, CertRefValid, MeasuredValid;
    outLen := 0;
    ret := ValidateClaims(c);
    if ret.Fail? {
      return;
    }
    ret, outLen := WriteClaims(c, out);
  }

  /** The map head and the claims. */
  method WriteClaims(c: Claims, out: array<byte>) returns (ret: Status, outLen: nat)
    requires Encodable(c)
    modifies out
    ensures ClaimsText(c) ==> ret == if |ClaimsBytes(c)| <= out.Length then Success else Fail(BufferTooSmall)
    ensures !ClaimsText(c) ==> ret.Fail?
    ensures ret.Success? ==> outLen == |ClaimsBytes(c)| <= out.Length && out[..outLen] == ClaimsBytes(c)
    ensures ret.Fail? ==> outLen == 0
  {
    hide Encoder.Valid, EncodeHead, HeadSize, FieldsBytes, Present, Reached, ClaimFields, ClaimsText, Patch;
    outLen := 0;
    ghost var os := ClaimFields(c);
    ClaimCount(c);
    var count := 7 + (if c.bootSeed.Some? then 1 else 0) + (if c.certRef.Some? then 1 else 0) + (if c.vsi.Some? then 1 else 0);
    var ctx := new Encoder(out, 0, out.Length);
    Nothing(EncodeHead(MAP, count));
    ret := ctx.EncodeMapStart(count);
    if ret.Fail? {
      return;
    }
    ghost var v, start := ctx.written, ctx.idx;
    Begin(ctx, os);
    ret := EncodeFrontClaims(ctx, c, os, v, start);
    if ret.Success? {
      ret := EncodeBackClaims(ctx, c, os, v, start);
    }
    if ret.Success? {
      Complete(ctx, os, v, start);
      ctx.DoneFromStart();
      outLen := ctx.idx;
    }
  }
}
