/**
 Printing and parsing PSA claims as the library does, with contexts, records that are filled in
 place, and a second scan of the map for every label; proved against Eat.dfy and EatRoundTrip.dfy.
 */
module EatContext {
  import opened Wire
  import opened Cbor
  import opened CborContext
  import opened Eat
  import opened EatLemmas

  // ----- Parsing -----

  method DecodeMapKey(ctx: Decoder) returns (ret: Status, key: MapKey)
    modifies ctx
    ensures var r := DecodeKey(ctx.cbuf, old(ctx.idx));
      ret == r.Status() && (ret.Success? ==> r == Ok(key, ctx.idx))
  {
    hide Cbor.DecodeHead;
    key := Unsigned(0);
    var item;
    ret, item := ctx.DecodeHead(true);
    if ret.Success? {
      if item.major == UINT {
        key := Unsigned(item.val);
      } else if item.major == NEGINT {
        key := Negative(item.val);
      } else if item.major == TSTR {
        key := Text(item.data);
      } else {
        ret := Fail(CborType);
      }
    }
  }

  /** `wolfCose_EatPsaMapHasPriorLabel`: a second scan, from the start of the map. */
  method MapHasPriorLabel(m: seq<byte>, before: nat, key: MapKey) returns (ret: Status, duplicate: bool)
    ensures var r := HasPrior(m, before, key);
      ret == r.Status() && (ret.Success? ==> duplicate == r.value)
  {
    hide Skip, DecodeKey, DecodeContainer;
    duplicate := false;
    var scan := new Decoder(m);
    var count;
    ret, count := scan.DecodeMap(true);
    if ret.Fail? {
      return;
    }
    ghost var goal := HasPrior(m, before, key);
    var i := 0;
    while ret.Success? && i < count && scan.idx < before
      invariant 0 <= i <= count
      invariant ret.Fail? ==> goal == Err(ret.error)
      invariant ret.Success? ==> goal == PriorFrom(m, scan.idx, count - i, before, key)
      decreases ret.Success?, count - i
    {
      var prior;
      ret, prior := DecodeMapKey(scan);
      if ret.Success? && prior == key {
        duplicate := true;
        return;
      }
      if ret.Success? {
        ret := scan.Skip(true);
      }
      i := i + 1;
    }
    if ret.Success? && scan.idx != before {
      ret := Fail(CborMalformed);
    }
  }

  /** The label is read, and looked for among those before it. */
  method DecodeFreshKey(ctx: Decoder, mapStart: nat) returns (ret: Status, key: MapKey)
    requires mapStart <= ctx.idx <= |ctx.cbuf|
    modifies ctx
    ensures var k := DecodeKey(ctx.cbuf, old(ctx.idx));
      if k.Err? then ret == Fail(k.error)
      else
        var r := HasPrior(ctx.cbuf[mapStart..], old(ctx.idx) - mapStart, k.value);
        && ret == (if r.Err? then Fail(r.error) else if r.value then Fail(EatPsaClaim) else Success)
        && k == Ok(key, ctx.idx)
  {
    hide DecodeKey, HasPrior;
    var labelStart := ctx.idx - mapStart;
    var duplicate := false;
    ret, key := DecodeMapKey(ctx);
    if ret.Success? {
      ret, duplicate := MapHasPriorLabel(ctx.cbuf[mapStart..], labelStart, key);
    }
    if ret.Success? && duplicate {
      ret := Fail(EatPsaClaim);
    }
  }

  /** A component record. */
  class ComponentRecord {
    var mtype: Option<seq<byte>>
    var value: Option<seq<byte>>
    var version: Option<seq<byte>>
    var signer: Option<seq<byte>>
    var desc: Option<seq<byte>>

    function View(): Component
      reads this
    {
      Component(mtype, value, version, signer, desc)
    }

    /** A record set to zero. */
    constructor ()
      ensures View() == ComponentOf([])
    {
      mtype, value, version, signer, desc := None, None, None, None, None;
    }

    method Clear()
      modifies this
      ensures View() == ComponentOf([])
    {
      mtype, value, version, signer, desc := None, None, None, None, None;
    }
  }

  /** What one more entry adds to a component. */
  function WithEntry(c: Component, p: Pair): (r: Component) {
    if !p.value.Str? then c
    else match Number(p.key)
      case Some(1) => c.(mtype := Some(p.value.data))
      case Some(2) => c.(value := Some(p.value.data))
      case Some(4) => c.(version := Some(p.value.data))
      case Some(5) => c.(signer := Some(p.value.data))
      case Some(6) => c.(desc := Some(p.value.data))
      case _ => c
  }

  lemma {:induction false} StrOfNext(ps: seq<Pair>, p: Pair, n: int)
    requires !SeenNumber(ps, n) || Number(p.key) != Some(n) || !p.value.Str?
    ensures StrOf(ps + [p], n) == if Number(p.key) == Some(n) && p.value.Str? then Some(p.value.data) else StrOf(ps, n)
  {
    if ps != [] {
      assert (ps + [p])[1..] == ps[1..] + [p] && (ps + [p])[0] == ps[0];
      if !SeenNumber(ps, n) {
        forall k | 0 <= k < |ps[1..]|
          ensures Number(ps[1..][k].key) != Some(n)
        {
          assert ps[1..][k] == ps[k + 1];
        }
      }
      StrOfNext(ps[1..], p, n);
    }
  }

  /** The record follows the entries that were read. */
  lemma ComponentNext(ps: seq<Pair>, p: Pair)
    requires Number(p.key).Some? && Number(p.key).value in {1, 2, 4, 5, 6} ==> !SeenNumber(ps, Number(p.key).value)
    ensures ComponentOf(ps + [p]) == WithEntry(ComponentOf(ps), p)
  {
    hide StrOf, SeenNumber, Number;
    StrOfNext(ps, p, 1);
    StrOfNext(ps, p, 2);
    StrOfNext(ps, p, 4);
    StrOfNext(ps, p, 5);
    StrOfNext(ps, p, 6);
  }

  lemma SeenNext(ps: seq<Pair>, p: Pair, n: int)
    ensures SeenNumber(ps + [p], n) <==> SeenNumber(ps, n) || Number(p.key) == Some(n)
  {
    hide Number;
    if SeenNumber(ps, n) {
      var k :| 0 <= k < |ps| && Number(ps[k].key) == Some(n);
      assert (ps + [p])[k] == ps[k];
    }
    assert (ps + [p])[|ps|] == p;
  }

  /** The value of an entry of a component, into the record. */
  method DecodeComponentValue(ctx: Decoder, component: ComponentRecord, key: MapKey, seen: set<int>, ghost ps: seq<Pair>)
    returns (ret: Status, seen': set<int>, ghost v: Value)
    requires forall n :: n in {1, 2, 4, 5, 6} ==> (n in seen <==> SeenNumber(ps, n))
    requires component.View() == ComponentOf(ps)
    modifies ctx, component
    ensures var r := ComponentValue(ctx.cbuf, old(ctx.idx), key, ps);
      && ret == r.Status()
      && (ret.Success? ==>
            && r == Ok(v, ctx.idx) && component.View() == ComponentOf(ps + [Pair(key, v)])
            && forall n :: n in {1, 2, 4, 5, 6} ==> (n in seen' <==> SeenNumber(ps + [Pair(key, v)], n)))
  {
    hide Skip, DecodeString, SeenNumber, ComponentOf;
    seen', v := seen, Skipped;
    ret := Success;
    var lbl := Number(key);
    if lbl.Some? && lbl.value in {1, 2, 4, 5, 6} {
      if lbl.value in seen {
        return Fail(EatPsaClaim), seen', v;
      }
      seen' := seen + {lbl.value};
      var data;
      if lbl.value == 1 {
        ret, data := ctx.DecodeTstr(true);
        component.mtype := Some(data);
      } else if lbl.value == 2 {
        ret, data := ctx.DecodeBstr(true);
        component.value := Some(data);
      } else if lbl.value == 4 {
        ret, data := ctx.DecodeTstr(true);
        component.version := Some(data);
      } else if lbl.value == 5 {
        ret, data := ctx.DecodeBstr(true);
        component.signer := Some(data);
      } else {
        ret, data := ctx.DecodeTstr(true);
        component.desc := Some(data);
      }
      v := Str(data);
    } else {
      ret := ctx.Skip(true);
    }
    ComponentNext(ps, Pair(key, v));
    SeenAll(ps, Pair(key, v));
  }

  lemma SeenAll(ps: seq<Pair>, p: Pair)
    ensures forall n :: SeenNumber(ps + [p], n) <==> SeenNumber(ps, n) || Number(p.key) == Some(n)
  {
    hide SeenNumber, Number;
    forall n
      ensures SeenNumber(ps + [p], n) <==> SeenNumber(ps, n) || Number(p.key) == Some(n)
    {
      SeenNext(ps, p, n);
    }
  }

  /** `wolfCose_EatPsaDecodeComponent`. */
  method DecodeComponent(ctx: Decoder, component: ComponentRecord) returns (ret: Status)
    modifies ctx, component
    ensures var r := ComponentAt(ctx.cbuf, old(ctx.idx));
      ret == r.Status() && (ret.Success? ==> r == Ok(component.View(), ctx.idx))
  {
    hide DecodeContainer, Pairs, ComponentOf, IsHash, ComponentValue, DecodeKey, HasPrior, SeenNumber;
    ghost var s := ctx.cbuf;
    component.Clear();
    var mapStart := ctx.idx;
    var count;
    ret, count := ctx.DecodeMap(true);
    if ret.Success? && count > MAX_COMPONENT_CLAIMS {
      ret := Fail(EatPsaClaim);
    }
    if ret.Fail? {
      return;
    }
    ghost var goal := Pairs(ComponentMap, s, mapStart, ctx.idx, count, []);
    ghost var ps := [];
    var seen := {};
    var i := 0;
    NothingSeen();
    while ret.Success? && i < count
      invariant 0 <= i <= count
      invariant ret.Fail? ==> goal == Err(ret.error)
      invariant ret.Success? ==>
        && mapStart <= ctx.idx <= |s| && goal == Pairs(ComponentMap, s, mapStart, ctx.idx, count - i, ps)
        && component.View() == ComponentOf(ps)
        && forall n :: n in {1, 2, 4, 5, 6} ==> (n in seen <==> SeenNumber(ps, n))
      decreases ret.Success?, count - i
    {
      PairsUnfold(ComponentMap, s, mapStart, ctx.idx, count - i, ps);
      var key;
      ret, key := DecodeFreshKey(ctx, mapStart);
      if ret.Success? {
        ComponentShape(s, ctx.idx, key, ps);
        ghost var v;
        ret, seen, v := DecodeComponentValue(ctx, component, key, seen, ps);
        ps := ps + [Pair(key, v)];
      }
      i := i + 1;
    }
    if ret.Success? {
      PairsNone(ComponentMap, s, mapStart, ctx.idx, ps);
      if !IsHash(component.value) || !IsHash(component.signer) {
        ret := Fail(EatPsaClaim);
      }
    }
  }

  lemma NothingSeen()
    ensures forall n :: !SeenNumber([], n)
    ensures forall c :: !Seen([], c)
    ensures !Mixed([], true) && !Mixed([], false)
  {
  }

  /** `wolfCose_EatPsaDecodeComponents`. */
  method DecodeComponents(ctx: Decoder) returns (ret: Status, components: seq<byte>, componentCount: nat)
    modifies ctx
    ensures var r := ComponentsAt(ctx.cbuf, old(ctx.idx));
      && ret == r.Status()
      && (ret.Success? ==>
            ctx.idx == r.next && components == ctx.cbuf[old(ctx.idx)..r.next] && componentCount == |r.value|)
  {
    hide DecodeContainer, ComponentAt, ComponentsFrom;
    components, componentCount := [], 0;
    if ctx.idx >= |ctx.cbuf| {
      return Fail(InvalidArg), components, componentCount;
    }
    ghost var s := ctx.cbuf;
    var startIdx := ctx.idx;
    var count;
    ret, count := ctx.DecodeArray(true);
    if ret.Success? && (count == 0 || count > MAX_COMPONENTS) {
      ret := Fail(EatPsaClaim);
    }
    if ret.Fail? {
      return;
    }
    ghost var goal := ComponentsFrom(s, ctx.idx, count, []);
    ghost var cs := [];
    var component := new ComponentRecord();
    var i := 0;
    while ret.Success? && i < count
      invariant 0 <= i <= count
      invariant ret.Fail? ==> goal == Err(ret.error)
      invariant ret.Success? ==> startIdx <= ctx.idx <= |s| && goal == ComponentsFrom(s, ctx.idx, count - i, cs)
      decreases ret.Success?, count - i
    {
      ComponentsUnfold(s, ctx.idx, count - i, cs);
      ret := DecodeComponent(ctx, component);
      cs := cs + [component.View()];
      i := i + 1;
    }
    if ret.Success? {
      ComponentsNone(s, ctx.idx, cs);
      components := ctx.cbuf[startIdx..ctx.idx];
      componentCount := count;
    }
  }

  lemma ComponentsUnfold(s: seq<byte>, i: nat, n: nat, cs: seq<Component>)
    requires n > 0
    ensures var c := ComponentAt(s, i);
      ComponentsFrom(s, i, n, cs) == if c.Err? then Err(c.error) else ComponentsFrom(s, c.next, n - 1, cs + [c.value])
  {
    hide ComponentAt;
  }

  lemma ComponentsNone(s: seq<byte>, i: nat, cs: seq<Component>)
    ensures ComponentsFrom(s, i, 0, cs) == Ok(cs, i)
  {
  }

  /** `wc_CoseEatPsaToken_ForEachComponent`, where `cb` decides, for the components handed out so
      far, what the callback answers to the last of them. */
  method ForEachComponent(t: Token, cb: seq<Component> -> Status) returns (ret: Status, reached: seq<Component>)
    ensures var r := StoredComponents(t);
      && (ret.Success? ==> r.Ok? && reached == r.value && forall k :: 0 < k <= |reached| ==> cb(reached[..k]).Success?)
      && (ret.Fail? && r.Ok? ==>
            0 < |reached| <= |r.value| && reached == r.value[..|reached|] && ret == cb(reached))
  {
    hide DecodeContainer, ComponentAt, ComponentsFrom;
    reached := [];
    if t.noMeasurements {
      return Success, reached;
    }
    if t.components.None? {
      return Fail(InvalidArg), reached;
    }
    var ctx := new Decoder(t.components.value);
    var count;
    ret, count := ctx.DecodeArray(true);
    if ret.Success? && count != t.count {
      ret := Fail(EatPsaClaim);
    }
    if ret.Fail? {
      return;
    }
    ret, reached := HandOut(ctx, count, cb);
    if ret.Success? && ctx.idx != |ctx.cbuf| {
      ret := Fail(EatPsaClaim);
    }
  }

  /** The loop over the components. */
  method HandOut(ctx: Decoder, count: nat, cb: seq<Component> -> Status) returns (ret: Status, reached: seq<Component>)
    modifies ctx
    ensures var goal := ComponentsFrom(ctx.cbuf, old(ctx.idx), count, []);
      && (ret.Success? ==>
            goal == Ok(reached, ctx.idx) && forall k :: 0 < k <= |reached| ==> cb(reached[..k]).Success?)
      && (ret.Fail? && goal.Ok? ==>
            0 < |reached| <= |goal.value| && reached == goal.value[..|reached|] && ret == cb(reached))
  {
    hide ComponentAt, ComponentsFrom;
    ghost var s := ctx.cbuf;
    ghost var goal := ComponentsFrom(s, ctx.idx, count, []);
    ret, reached := Success, [];
    var component := new ComponentRecord();
    var i := 0;
    while ret.Success? && i < count
      invariant |reached| <= i <= count
      invariant ret.Success? ==>
        && goal == ComponentsFrom(s, ctx.idx, count - i, reached)
        && forall k :: 0 < k <= |reached| ==> cb(reached[..k]).Success?
      invariant ret.Fail? && goal.Ok? ==>
        0 < |reached| <= |goal.value| && reached == goal.value[..|reached|] && ret == cb(reached)
      decreases ret.Success?, count - i
    {
      ComponentsUnfold(s, ctx.idx, count - i, reached);
      ret := DecodeComponent(ctx, component);
      if ret.Success? {
        ghost var was := reached;
        reached := reached + [component.View()];
        if goal.Ok? {
          ComponentsPrefix(s, ctx.idx, count - i - 1, reached);
        }
        CalledFor(cb, was, component.View());
        ret := cb(reached);
      }
      i := i + 1;
    }
    if ret.Success? {
      ComponentsNone(s, ctx.idx, reached);
    }
  }

  /** The callback was called for every component but the last. */
  lemma CalledFor(cb: seq<Component> -> Status, was: seq<Component>, c: Component)
    requires forall k :: 0 < k <= |was| ==> cb(was[..k]).Success?
    ensures forall k :: 0 < k <= |was| ==> cb((was + [c])[..k]).Success?
    ensures (was + [c])[..|was| + 1] == was + [c]
  {
    forall k | 0 < k <= |was|
      ensures cb((was + [c])[..k]).Success?
    {
      assert (was + [c])[..k] == was[..k];
    }
  }

  lemma {:induction false} ComponentsPrefix(s: seq<byte>, i: nat, n: nat, cs: seq<Component>)
    requires ComponentsFrom(s, i, n, cs).Ok?
    ensures var all := ComponentsFrom(s, i, n, cs).value; |cs| <= |all| && all[..|cs|] == cs
    decreases n
  {
    hide ComponentAt;
    if n > 0 {
      var c := ComponentAt(s, i);
      ComponentsPrefix(s, c.next, n - 1, cs + [c.value]);
      var all := ComponentsFrom(s, i, n, cs).value;
      assert all[..|cs|] == all[..|cs| + 1][..|cs|] == cs;
    } else {
      assert cs[..|cs|] == cs;
    }
  }

  // ----- Parsing the claims -----

  lemma BlankToken()
    ensures TokenOf([], false) == Token(false, None, None, None, None, None, None, 0, 0, None, 0, false)
  {
    hide KnownOf;
  }

  /** The token record: the profile is none until it is known. */
  class TokenRecord {
    var profile: Option<bool>
    var nonce: Option<seq<byte>>
    var ueid: Option<seq<byte>>
    var implementation: Option<seq<byte>>
    var bootSeed: Option<seq<byte>>
    var certRef: Option<seq<byte>>
    var vsi: Option<seq<byte>>
    var clientId: int
    var lifecycle: int
    var components: Option<seq<byte>>
    var componentCount: nat
    var noMeasurements: bool

    /** The token, but for its profile. */
    function View(legacy: bool): Token
      reads this
    {
      Token(legacy, nonce, ueid, implementation, bootSeed, certRef, vsi, clientId, lifecycle, components, componentCount,
            noMeasurements)
    }

    /** A record set to zero. */
    constructor ()
      ensures profile == None && View(false) == TokenOf([], false)
    {
      BlankToken();
      hide TokenOf;
      profile, nonce, ueid, implementation, bootSeed, certRef, vsi := None, None, None, None, None, None, None;
      clientId, lifecycle, components, componentCount, noMeasurements := 0, 0, None, 0, false;
    }

    /** Sets the record to zero. */
    method Clear()
      modifies this
      ensures profile == None && View(false) == TokenOf([], false)
    {
      hide TokenOf;
      BlankToken();
      profile, nonce, ueid, implementation, bootSeed, certRef, vsi := None, None, None, None, None, None, None;
      clientId, lifecycle, components, componentCount, noMeasurements := 0, 0, None, 0, false;
    }
  }

  /** What one more claim adds to a token. */
  function WithClaim(t: Token, claim: Claim, v: Value): (r: Token)
    requires Kind(claim, v)
  {
    Token(t.legacy, StrIf(claim == Nonce, v, t.nonce), StrIf(claim == Ueid, v, t.ueid),
          StrIf(claim == Implementation, v, t.implementation), StrIf(claim == BootSeed, v, t.bootSeed),
          StrIf(claim == CertRef, v, t.certRef), StrIf(claim == Vsi, v, t.vsi),
          if claim == ClientId then v.n else t.clientId, if claim == Lifecycle then v.n else t.lifecycle,
          if claim == Components then Some(v.raw) else t.components, if claim == Components then |v.cs| else t.count,
          if claim == NoMeasurements then v.n == 1 else t.noMeasurements)
  }

  /** The text or bytes of a value when it is for this field, and what the field held otherwise. */
  function StrIf(mine: bool, v: Value, held: Option<seq<byte>>): (r: Option<seq<byte>>) {
    if mine && v.Str? then Some(v.data) else held
  }

  /** The kind of value that a claim has. */
  predicate Kind(claim: Claim, v: Value) {
    match claim
    case ClientId => v.Num?
    case Lifecycle => v.Num?
    case NoMeasurements => v.Num?
    case Components => v.Parts?
    case _ => v.Str?
  }

  lemma {:induction false} FindNext(ps: seq<Pair>, p: Pair, claim: Claim)
    ensures FindClaim(ps + [p], claim)
         == if FindClaim(ps, claim).Some? then FindClaim(ps, claim)
            else if KnownOf(p.key).Some? && KnownOf(p.key).value.claim == claim then Some(p.value)
            else None
  {
    hide KnownOf;
    if ps != [] {
      assert (ps + [p])[1..] == ps[1..] + [p] && (ps + [p])[0] == ps[0];
      FindNext(ps[1..], p, claim);
    }
  }

  /** The lookups after one more claim. */
  lemma Lookups(ps: seq<Pair>, p: Pair, claim: Claim)
    requires KnownOf(p.key).Some? ==> !Seen(ps, KnownOf(p.key).value.claim)
    ensures var mine := KnownOf(p.key).Some? && KnownOf(p.key).value.claim == claim; var qs := ps + [p];
      && FindClaim(qs, claim) == (if mine then Some(p.value) else FindClaim(ps, claim))
      && (mine ==> FindClaim(ps, claim) == None)
      && StrClaim(qs, claim) == (if mine then if p.value.Str? then Some(p.value.data) else None else StrClaim(ps, claim))
      && NumClaim(qs, claim) == (if mine then if p.value.Num? then p.value.n else 0 else NumClaim(ps, claim))
  {
    hide FindClaim, Seen, KnownOf;
    FindNext(ps, p, claim);
    if KnownOf(p.key).Some? && KnownOf(p.key).value.claim == claim {
      NotFound(ps, claim);
    }
  }

  /** The record follows the claims that were read. */
  lemma TokenNext(ps: seq<Pair>, p: Pair, legacy: bool)
    requires KnownOf(p.key).Some? ==> !Seen(ps, KnownOf(p.key).value.claim) && Kind(KnownOf(p.key).value.claim, p.value)
    ensures TokenOf(ps + [p], legacy)
         == if KnownOf(p.key).None? then TokenOf(ps, legacy)
            else WithClaim(TokenOf(ps, legacy), KnownOf(p.key).value.claim, p.value)
  {
    hide FindClaim, StrClaim, NumClaim, Seen, KnownOf;
    StringsNext(ps, p);
    Lookups(ps, p, ClientId);
    Lookups(ps, p, Lifecycle);
    Lookups(ps, p, NoMeasurements);
    Lookups(ps, p, Components);
  }

  /** The claims that are strings. */
  lemma StringsNext(ps: seq<Pair>, p: Pair)
    requires KnownOf(p.key).Some? ==> !Seen(ps, KnownOf(p.key).value.claim)
    ensures forall claim ::
      StrClaim(ps + [p], claim)
      == if KnownOf(p.key).Some? && KnownOf(p.key).value.claim == claim then
           if p.value.Str? then Some(p.value.data) else None
         else StrClaim(ps, claim)
  {
    hide FindClaim, StrClaim, NumClaim, Seen, KnownOf;
    forall claim
      ensures StrClaim(ps + [p], claim)
           == if KnownOf(p.key).Some? && KnownOf(p.key).value.claim == claim then
                if p.value.Str? then Some(p.value.data) else None
              else StrClaim(ps, claim)
    {
      Lookups(ps, p, claim);
    }
  }

  lemma SeenClaims(ps: seq<Pair>, p: Pair)
    ensures forall c :: Seen(ps + [p], c) <==> Seen(ps, c) || (KnownOf(p.key).Some? && KnownOf(p.key).value.claim == c)
    ensures forall l :: Mixed(ps + [p], l) <==> Mixed(ps, l) || (KnownOf(p.key).Some? && KnownOf(p.key).value.legacy != l)
  {
    hide KnownOf;
    var qs := ps + [p];
    assert qs[|ps|] == p;
    forall c
      ensures Seen(qs, c) <==> Seen(ps, c) || (KnownOf(p.key).Some? && KnownOf(p.key).value.claim == c)
    {
      if Seen(ps, c) {
        var k :| 0 <= k < |ps| && KnownOf(ps[k].key).Some? && KnownOf(ps[k].key).value.claim == c;
        assert qs[k] == ps[k];
      }
    }
    forall l
      ensures Mixed(qs, l) <==> Mixed(ps, l) || (KnownOf(p.key).Some? && KnownOf(p.key).value.legacy != l)
    {
      if Mixed(ps, l) {
        var k :| 0 <= k < |ps| && KnownOf(ps[k].key).Some? && KnownOf(ps[k].key).value.legacy != l;
        assert qs[k] == ps[k];
      }
    }
  }

  lemma BytesClaim(s: seq<byte>, j: nat, k: Known)
    requires k.claim == Nonce || k.claim == Ueid || k.claim == BootSeed || k.claim == Implementation
    ensures var r := DecodeBstr(s, j, true); ScalarClaim(s, j, k) == if r.Err? then Err(r.error) else Ok(Str(r.value), r.next)
  {
    hide DecodeString;
  }

  lemma TextClaim(s: seq<byte>, j: nat, k: Known)
    requires k.claim == CertRef || k.claim == Vsi
    ensures var r := DecodeTstr(s, j, true); ScalarClaim(s, j, k) == if r.Err? then Err(r.error) else Ok(Str(r.value), r.next)
  {
    hide DecodeString;
  }

  lemma ProfileClaim(s: seq<byte>, j: nat, k: Known)
    requires k.claim == Profile
    ensures var r := DecodeTstr(s, j, true);
      ScalarClaim(s, j, k)
      == if r.Err? then Err(r.error)
         else if r.value != (if k.legacy then LegacyProfile() else TfmProfile()) then Err(EatPsaProfile)
         else Ok(Str(r.value), r.next)
  {
    hide DecodeString, LegacyProfile, TfmProfile;
  }

  /** What a claim that is a number may be. */
  predicate NumberAllowed(claim: Claim, n: int) {
    match claim
    case ClientId => -INT32_MAX - 1 <= n <= INT32_MAX && n != 0
    case Lifecycle => n >= 0 && LifecycleValid(n)
    case _ => n == 1
  }

  lemma NumberClaim(s: seq<byte>, j: nat, k: Known)
    requires k.claim == ClientId || k.claim == Lifecycle || k.claim == NoMeasurements
    ensures k.claim == ClientId ==>
      var r := DecodeInt(s, j, true);
      ScalarClaim(s, j, k)
      == if r.Err? then Err(r.error)
         else if !NumberAllowed(k.claim, r.value) then Err(EatPsaClaim) else Ok(Num(r.value), r.next)
    ensures k.claim != ClientId ==>
      var r := DecodeUint(s, j, true);
      ScalarClaim(s, j, k)
      == if r.Err? then Err(r.error)
         else if !NumberAllowed(k.claim, r.value) then Err(EatPsaClaim) else Ok(Num(r.value), r.next)
  {
    hide DecodeUint, DecodeInt, LifecycleValid;
  }

  /** The claims that are byte strings. */
  method DecodeBytesClaim(ctx: Decoder, token: TokenRecord, k: Known) returns (ret: Status, ghost v: Value)
    requires k.claim == Nonce || k.claim == Ueid || k.claim == BootSeed || k.claim == Implementation
    modifies ctx, token`nonce, token`ueid, token`bootSeed, token`implementation
    ensures var r := ScalarClaim(ctx.cbuf, old(ctx.idx), k);
      && ret == r.Status()
      && (ret.Success? ==>
            && r == Ok(v, ctx.idx) && Kind(k.claim, v)
            && token.View(false) == WithClaim(old(token.View(false)), k.claim, v))
  {
    hide DecodeString, ScalarClaim;
    BytesClaim(ctx.cbuf, ctx.idx, k);
    var data;
    ret, data := ctx.DecodeBstr(true);
    v := Str(data);
    if k.claim == Nonce {
      token.nonce := Some(data);
    } else if k.claim == Ueid {
      token.ueid := Some(data);
    } else if k.claim == BootSeed {
      token.bootSeed := Some(data);
    } else {
      token.implementation := Some(data);
    }
  }

  /** `wolfCose_EatPsaSetProfile`. */
  method SetProfile(token: TokenRecord, text: seq<byte>, legacy: bool) returns (ret: Status)
    modifies token`profile
    ensures ret == if text == (if legacy then LegacyProfile() else TfmProfile()) then Success else Fail(EatPsaProfile)
    ensures token.profile == if ret.Success? then Some(legacy) else old(token.profile)
  {
    hide TfmProfile, LegacyProfile;
    var expected := if legacy then LegacyProfile() else TfmProfile();
    if text != expected {
      return Fail(EatPsaProfile);
    }
    token.profile := Some(legacy);
    return Success;
  }

  /** The claim that names the profile. */
  method DecodeProfileClaim(ctx: Decoder, token: TokenRecord, k: Known) returns (ret: Status, ghost v: Value)
    requires k.claim == Profile
    modifies ctx, token`profile
    ensures var r := ScalarClaim(ctx.cbuf, old(ctx.idx), k);
      && ret == r.Status()
      && (ret.Success? ==> r == Ok(v, ctx.idx) && Kind(k.claim, v) && token.profile == Some(k.legacy))
  {
    hide DecodeString, TfmProfile, LegacyProfile, ScalarClaim;
    ProfileClaim(ctx.cbuf, ctx.idx, k);
    var data;
    ret, data := ctx.DecodeTstr(true);
    v := Str(data);
    if ret.Success? {
      ret := SetProfile(token, data, k.legacy);
    }
  }

  /** The other claims that are texts. */
  method DecodeTextClaim(ctx: Decoder, token: TokenRecord, k: Known) returns (ret: Status, ghost v: Value)
    requires k.claim == CertRef || k.claim == Vsi
    modifies ctx, token`certRef, token`vsi
    ensures var r := ScalarClaim(ctx.cbuf, old(ctx.idx), k);
      && ret == r.Status()
      && (ret.Success? ==>
            && r == Ok(v, ctx.idx) && Kind(k.claim, v)
            && token.View(false) == WithClaim(old(token.View(false)), k.claim, v))
  {
    hide DecodeString, ScalarClaim;
    TextClaim(ctx.cbuf, ctx.idx, k);
    var data;
    ret, data := ctx.DecodeTstr(true);
    v := Str(data);
    if k.claim == CertRef {
      token.certRef := Some(data);
    } else {
      token.vsi := Some(data);
    }
  }

  /** The claims that are numbers. */
  method DecodeNumberClaim(ctx: Decoder, token: TokenRecord, k: Known) returns (ret: Status, ghost v: Value)
    requires k.claim == ClientId || k.claim == Lifecycle || k.claim == NoMeasurements
    modifies ctx, token`clientId, token`lifecycle, token`noMeasurements
    ensures var r := ScalarClaim(ctx.cbuf, old(ctx.idx), k);
      && ret == r.Status()
      && (ret.Success? ==>
            && r == Ok(v, ctx.idx) && Kind(k.claim, v)
            && token.View(false) == WithClaim(old(token.View(false)), k.claim, v))
  {
    hide DecodeUint, DecodeInt, LifecycleValid, ScalarClaim;
    NumberClaim(ctx.cbuf, ctx.idx, k);
    var n;
    if k.claim == ClientId {
      ret, n := ctx.DecodeInt(true);
      if ret.Success? && (!(-INT32_MAX - 1 <= n <= INT32_MAX) || n == 0) {
        ret := Fail(EatPsaClaim);
      }
      if ret.Success? {
        token.clientId := n;
      }
    } else if k.claim == Lifecycle {
      ret, n := ctx.DecodeUint(true);
      if ret.Success? && !LifecycleValid(n) {
        ret := Fail(EatPsaClaim);
      }
      if ret.Success? {
        token.lifecycle := n;
      }
    } else {
      ret, n := ctx.DecodeUint(true);
      if ret.Success? && n != 1 {
        ret := Fail(EatPsaClaim);
      }
      if ret.Success? {
        token.noMeasurements := true;
      }
    }
    v := Num(n);
  }

  /** The value of a known claim, into the record. */
  method DecodeClaimValue(ctx: Decoder, token: TokenRecord, k: Known) returns (ret: Status, ghost v: Value)
    modifies ctx, token
    ensures var r := KnownValue(ctx.cbuf, old(ctx.idx), k);
      && ret == r.Status()
      && (ret.Success? ==>
            && r == Ok(v, ctx.idx) && Kind(k.claim, v)
            && token.View(false) == WithClaim(old(token.View(false)), k.claim, v)
            && token.profile == (if k.claim == Profile then Some(k.legacy) else old(token.profile)))
  {
    hide ComponentsAt, ScalarClaim;
    if k.claim == Nonce || k.claim == Ueid || k.claim == BootSeed || k.claim == Implementation {
      ret, v := DecodeBytesClaim(ctx, token, k);
    } else if k.claim == Profile {
      ret, v := DecodeProfileClaim(ctx, token, k);
    } else if k.claim == CertRef || k.claim == Vsi {
      ret, v := DecodeTextClaim(ctx, token, k);
    } else if k.claim == Components {
      var at := ctx.idx;
      var data, count;
      ret, data, count := DecodeComponents(ctx);
      v := Skipped;
      if ret.Success? {
        token.components, token.componentCount := Some(data), count;
        v := Parts(ComponentsAt(ctx.cbuf, at).value, data);
      }
    } else {
      ret, v := DecodeNumberClaim(ctx, token, k);
    }
  }

  /** The value of a known claim that may be read. */
  function KnownValue(s: seq<byte>, j: nat, k: Known): (r: Dec<Value>) {
    if k.claim == Components then
      var (cs, e) :- ComponentsAt(s, j);
      Ok(Parts(cs, s[j..e]), e)
    else ScalarClaim(s, j, k)
  }

  /** The claims read so far: their names, and whether there are any of each namespace. */
  datatype Progress = Progress(seen: set<Claim>, currentLabels: bool, oldLabels: bool)

  /** The progress and the record follow the entries that were read. */
  ghost predicate Follows(g: Progress, profile: Option<bool>, ps: seq<Pair>) {
    && (forall c :: c in g.seen <==> Seen(ps, c))
    && (g.currentLabels <==> Mixed(ps, true)) && (g.oldLabels <==> Mixed(ps, false))
    && (profile.Some? <==> Seen(ps, Profile))
    && (profile.Some? ==> Mixed(ps, !profile.value))
  }

  lemma FollowsNext(g: Progress, profile: Option<bool>, ps: seq<Pair>, p: Pair, k: Known)
    requires Follows(g, profile, ps) && KnownOf(p.key) == Some(k) && !Seen(ps, k.claim)
    ensures Follows(Progress(g.seen + {k.claim}, g.currentLabels || !k.legacy, g.oldLabels || k.legacy),
                    if k.claim == Profile then Some(k.legacy) else profile, ps + [p])
  {
    hide KnownOf, Seen, Mixed;
    SeenClaims(ps, p);
  }

  lemma FollowsUnknown(g: Progress, profile: Option<bool>, ps: seq<Pair>, p: Pair)
    requires Follows(g, profile, ps) && KnownOf(p.key) == None
    ensures Follows(g, profile, ps + [p])
  {
    hide KnownOf, Seen, Mixed;
    SeenClaims(ps, p);
  }

  /** The value of an entry of the claims map. */
  method DecodeEntry(ctx: Decoder, token: TokenRecord, key: MapKey, g: Progress, ghost ps: seq<Pair>)
    returns (ret: Status, g': Progress, ghost v: Value)
    requires Follows(g, token.profile, ps) && token.View(false) == TokenOf(ps, false)
    modifies ctx, token
    ensures var r := ValueAt(ClaimsMap, ctx.cbuf, old(ctx.idx), key, ps);
      && ret == r.Status()
      && (ret.Success? ==>
            && r == Ok(v, ctx.idx) && Follows(g', token.profile, ps + [Pair(key, v)])
            && token.View(false) == TokenOf(ps + [Pair(key, v)], false))
  {
    hide Skip, ScalarClaim, ComponentsAt, Follows, TokenOf, KnownOf, Seen, Mixed;
    ret, g', v := Success, g, Skipped;
    FollowsIs(g, token.profile, ps);
    ghost var was := token.profile;
    var known := KnownOf(key);
    if known.None? {
      ret := ctx.Skip(true);
      FollowsUnknown(g, was, ps, Pair(key, v));
    } else {
      var k := known.value;
      if (k.legacy && g.currentLabels) || (!k.legacy && g.oldLabels) {
        return Fail(EatPsaProfile), g', v;
      }
      if k.claim in g.seen {
        return Fail(EatPsaClaim), g', v;
      }
      g' := Progress(g.seen + {k.claim}, g.currentLabels || !k.legacy, g.oldLabels || k.legacy);
      ret, v := DecodeClaimValue(ctx, token, k);
      FollowsNext(g, was, ps, Pair(key, v), k);
    }
    if ret.Success? {
      TokenNext(ps, Pair(key, v), false);
    }
  }

  lemma FollowsIs(g: Progress, profile: Option<bool>, ps: seq<Pair>)
    requires Follows(g, profile, ps)
    ensures forall c :: c in g.seen <==> Seen(ps, c)
    ensures (g.currentLabels <==> Mixed(ps, true)) && (g.oldLabels <==> Mixed(ps, false))
    ensures profile.Some? <==> Seen(ps, Profile)
    ensures profile.Some? ==> Mixed(ps, !profile.value)
  {
    hide Seen, Mixed;
  }

  /** The profile is one field of a token; the others do not depend on it. */
  lemma AnyProfile(ps: seq<Pair>, legacy: bool)
    ensures TokenOf(ps, legacy) == TokenOf(ps, false).(legacy := legacy)
  {
    hide FindClaim, StrClaim, NumClaim;
  }

  /** The checks of the whole map, and the profile that is settled on. */
  method CheckClaims(token: TokenRecord, g: Progress, ghost ps: seq<Pair>) returns (ret: Status)
    requires Follows(g, token.profile, ps) && token.View(false) == TokenOf(ps, false)
    modifies token`profile
    ensures ret == if MapStatus(ps).Fail? then MapStatus(ps)
                   else if !FieldsValid(TokenOf(ps, Mixed(ps, false))) then Fail(EatPsaClaim) else Success
    ensures ret.Success? ==> token.profile == Some(Mixed(ps, false))
    ensures token.View(false) == old(token.View(false))
  {
    hide Seen, Mixed, CertRefValid, TokenOf;
    FollowsIs(g, token.profile, ps);
    AnyProfile(ps, Mixed(ps, false));
    ret := Success;
    if g.currentLabels == g.oldLabels {
      ret := Fail(EatPsaProfile);
    }
    if ret.Success? && g.currentLabels {
      if !(CURRENT_REQUIRED <= g.seen) {
        ret := Fail(EatPsaClaim);
      } else if token.profile != Some(false) {
        ret := Fail(EatPsaProfile);
      }
    }
    if ret.Success? && g.oldLabels {
      if !(LEGACY_REQUIRED <= g.seen) {
        ret := Fail(EatPsaClaim);
      } else if (Components in g.seen) == (NoMeasurements in g.seen) {
        ret := Fail(EatPsaClaim);
      } else if token.profile.None? {
        token.profile := Some(true);
      } else if token.profile != Some(true) {
        ret := Fail(EatPsaProfile);
      }
    }
    if ret.Success? && !FieldsValid(token.View(g.oldLabels)) {
      ret := Fail(EatPsaClaim);
    }
  }

  /** `wolfCose_EatPsaDecodeClaims`: on failure the record is set to zero. */
  method ParseClaims(payload: seq<byte>, token: TokenRecord) returns (ret: Status)
    modifies token
    ensures var r := DecodeClaims(payload);
      && ret == r.Status()
      && (ret.Success? ==> token.profile.Some? && token.View(token.profile.value) == r.value)
      && (ret.Fail? ==> token.profile == None && token.View(false) == TokenOf([], false))
  {
    hide Pairs, DecodeContainer, TokenOf, FieldsValid, MapStatus, Mixed, Follows;
    token.Clear();
    var g, e;
    ghost var ps;
    ret, g, ps, e := ReadClaims(payload, token);
    if ret.Success? && e != |payload| {
      ret := Fail(EatPsaClaim);
    }
    if ret.Success? {
      AnyProfile(ps, Mixed(ps, false));
      ret := CheckClaims(token, g, ps);
    }
    if ret.Fail? {
      token.Clear();
    }
  }

  /** The loop over the claims. */
  method ReadClaims(payload: seq<byte>, token: TokenRecord) returns (ret: Status, g: Progress, ghost ps: seq<Pair>, e: nat)
    requires token.profile == None && token.View(false) == TokenOf([], false)
    modifies token
    ensures var r := ClaimPairs(payload);
      && ret == r.Status()
      && (ret.Success? ==>
            && r == Ok(ps, e) && Follows(g, token.profile, ps)
            && token.View(false) == TokenOf(ps, false))
  {
    hide DecodeContainer, Pairs, TokenOf, Follows, DecodeKey, HasPrior, ValueAt;
    g, ps, e := Progress({}, false, false), [], 0;
    var ctx := new Decoder(payload);
    var count;
    ret, count := ctx.DecodeMap(true);
    if ret.Success? && count > MAX_CLAIMS {
      ret := Fail(EatPsaClaim);
    }
    if ret.Fail? {
      return;
    }
    ghost var goal := Pairs(ClaimsMap, payload, 0, ctx.idx, count, []);
    FollowsNone();
    var i := 0;
    while ret.Success? && i < count
      invariant 0 <= i <= count
      invariant ret.Fail? ==> goal == Err(ret.error)
      invariant ret.Success? ==>
        && ctx.idx <= |payload| && goal == Pairs(ClaimsMap, payload, 0, ctx.idx, count - i, ps)
        && Follows(g, token.profile, ps) && token.View(false) == TokenOf(ps, false)
      decreases ret.Success?, count - i
    {
      PairsUnfold(ClaimsMap, payload, 0, ctx.idx, count - i, ps);
      var key;
      ret, key := DecodeFreshKey(ctx, 0);
      if ret.Success? {
        ghost var v;
        ret, g, v := DecodeEntry(ctx, token, key, g, ps);
        ps := ps + [Pair(key, v)];
      }
      i := i + 1;
    }
    if ret.Success? {
      PairsNone(ClaimsMap, payload, 0, ctx.idx, ps);
      e := ctx.idx;
    }
  }

  lemma FollowsNone()
    ensures Follows(Progress({}, false, false), None, [])
  {
    NothingSeen();
  }
}
