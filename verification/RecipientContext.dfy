/**
 The recipient and signature checkers as the library runs them, without recursion,
 and the recipient-mode state machine.
 */
module RecipientContext {
  import opened Wire
  import opened Cbor
  import opened CborContext
  import opened Header
  import opened HeaderContext
  import opened Recipients

  /** `wolfCose_DecodeSkippedHdrAlg`: the algorithm of a header map, other entries skipped. */
  method DecodeSkippedHdrAlg(ctx: Decoder, seen: AlgSeen) returns (ret: Status, a: AlgSeen)
    modifies ctx
    ensures ret == SkippedMap(ctx.cbuf, old(ctx.idx), seen).Status()
    ensures ret.Success? ==> SkippedMap(ctx.cbuf, old(ctx.idx), seen) == Ok(a, ctx.idx)
  {
    hide DecodeContainer, DecodeLabel, AlgValue, SkipItems, SkippedEntries;
    a := seen;
    var mapCount;
    ret, mapCount := ctx.DecodeMap(false);
    if ret.Success? && mapCount > |ctx.cbuf| {
      ret := Fail(CborMalformed);
    }
    ghost var goal := SkippedMap(ctx.cbuf, old(ctx.idx), seen);
    var i := 0;
    while ret.Success? && i < mapCount
      invariant 0 <= i && (ret.Success? ==> i <= mapCount)
      invariant ret.Fail? ==> goal == Err(ret.error)
      invariant ret.Success? ==> goal == SkippedEntries(ctx.cbuf, ctx.idx, mapCount - i, a)
      decreases ret.Success?, mapCount - i
    {
      EntriesUnfold(ctx.cbuf, ctx.idx, mapCount - i, a);
      var lbl;
      ret, lbl := ctx.DecodeLabel(false);
      if ret.Success? && IsAlg(lbl) {
        if a.found {
          ret := Fail(CborMalformed);
        } else {
          var alg;
          ret, alg := DecodeAlg(ctx, false);
          if ret.Success? {
            a := AlgSeen(if alg.Some? then alg.value else a.alg, true);
          }
        }
      } else if ret.Success? {
        ret := ctx.Skip(false);
      }
      i := i + 1;
    }
    if ret.Success? {
      EntriesNone(ctx.cbuf, ctx.idx, a);
    }
  }

  lemma EntriesUnfold(s: seq<byte>, i: nat, n: nat, a: AlgSeen)
    requires n > 0
    ensures var d := DecodeLabel(s, i, false);
      SkippedEntries(s, i, n, a)
      == if d.Err? then Err(d.error)
         else if IsAlg(d.value) then
           if a.found then Err(CborMalformed)
           else
             var v := AlgValue(s, d.next, false);
             if v.Err? then Err(v.error)
             else SkippedEntries(s, v.next, n - 1, AlgSeen(if v.value.Some? then v.value.value else a.alg, true))
         else
           var v := Skip(s, d.next, false);
           if v.Err? then Err(v.error) else SkippedEntries(s, v.next, n - 1, a)
  {
    hide DecodeLabel, AlgValue, Skip;
  }

  /** `wolfCose_DecodeSkippedHeaderEntry` for a signature. */
  method DecodeSkippedSignature(ctx: Decoder) returns (ret: Status)
    modifies ctx
    ensures ret == SkippedSignature(ctx.cbuf, old(ctx.idx)).Status()
    ensures ret.Success? ==> ctx.idx == SkippedSignature(ctx.cbuf, old(ctx.idx)).next
  {
    hide DecodeContainer, DecodeString, SkipItems;
    var arrayCount, data;
    ret, arrayCount := ctx.DecodeArray(false);
    if ret.Success? && (arrayCount < 3 || arrayCount > 3) {
      ret := Fail(CborMalformed);
    }
    if ret.Success? {
      ret, data := ctx.DecodeBstr(false);
    }
    if ret.Success? {
      ret := ctx.Skip(false);
    }
    if ret.Success? {
      ret, data := ctx.DecodeBstr(false);
    }
  }

  /** The protected bucket of a recipient, decoded from its own bytes. */
  method DecodeSkippedProtected(prot: seq<byte>) returns (ret: Status, a: AlgSeen)
    ensures ret == SkippedProtected(prot).Status()
    ensures ret.Success? ==> a == SkippedProtected(prot).value
  {
    ret, a := Success, AlgSeen(ALG_UNSET, false);
    if |prot| > 0 {
      var protectedCtx := new Decoder(prot);
      ret, a := DecodeSkippedHdrAlg(protectedCtx, a);
      if ret.Success? && protectedCtx.idx != |prot| {
        ret := Fail(CborMalformed);
      }
    }
  }

  /** `wolfCose_DecodeSkippedHeaderEntry` for a recipient, which may have four fields. */
  method DecodeSkippedRecipientEntry(ctx: Decoder) returns (ret: Status, arrayCount: nat, alg: i64)
    modifies ctx
    ensures ret == RecipientEntry(ctx.cbuf, old(ctx.idx)).Status()
    ensures ret.Success? ==> RecipientEntry(ctx.cbuf, old(ctx.idx)) == Ok((arrayCount, alg), ctx.idx)
  {
    hide DecodeContainer, DecodeHead, SkippedMap, SkippedProtected;
    alg := ALG_UNSET;
    ret, arrayCount := ctx.DecodeArray(false);
    if ret.Success? && (arrayCount < 3 || arrayCount > 4) {
      ret := Fail(CborMalformed);
    }
    var prot, a := [], AlgSeen(ALG_UNSET, false);
    if ret.Success? {
      ret, prot := ctx.DecodeBstr(false);
    }
    if ret.Success? {
      ret, a := DecodeSkippedProtected(prot);
    }
    if ret.Success? {
      ret, a := DecodeSkippedHdrAlg(ctx, a);
    }
    alg := a.alg;
    if ret.Success? && alg == ALG_DIRECT && |prot| != 0 {
      ret := Fail(CoseBadHdr);
    }
    if ret.Success? && alg == ALG_DIRECT {
      var item;
      ret, item := ctx.DecodeHead(false);
      if ret.Success? && (item.major != BSTR || |item.data| != 0) {
        ret := Fail(CoseBadHdr);
      }
    } else if ret.Success? && ctx.idx < |ctx.cbuf| && ctx.cbuf[ctx.idx] == NULL_BYTE {
      ctx.idx := ctx.idx + 1;
    } else if ret.Success? {
      var data;
      ret, data := ctx.DecodeBstr(false);
    }
  }

  /** A recipient up to its nested recipients, before the rule that Direct has none. */
  ghost function RecipientEntry(s: seq<byte>, i: nat): Dec<(nat, i64)> {
    var (n, j) :- DecodeArray(s, i, false);
    if n < 3 || n > 4 then Err(CborMalformed)
    else
      var (a, e) :- RecipientFields(s, j);
      Ok((n, a.alg), e)
  }

  lemma HeadOfEntry(s: seq<byte>, i: nat)
    ensures var r := RecipientEntry(s, i);
      RecipientHead(s, i)
      == if r.Ok? && r.value.0 == 4 && r.value.1 == ALG_DIRECT then Err(CoseBadHdr) else r
  {
    hide DecodeArray, RecipientFields;
  }

  /** What is left to check, with `remaining` recipients at the innermost level. */
  ghost function Rest(s: seq<byte>, i: nat, remaining: nat, stack: seq<nat>): (r: Dec<()>)
    requires |stack| <= CBOR_MAX_DEPTH
    decreases |stack|
  {
    var r := RecipientList(s, i, remaining, CBOR_MAX_DEPTH - |stack|);
    if r.Err? || stack == [] then r
    else Rest(s, r.next, stack[|stack| - 1], stack[..|stack| - 1])
  }

  lemma RestPush(s: seq<byte>, i: nat, m: nat, r: nat, stack: seq<nat>)
    requires |stack| < CBOR_MAX_DEPTH
    ensures Rest(s, i, m, stack + [r])
         == var kids := RecipientList(s, i, m, CBOR_MAX_DEPTH - |stack| - 1);
            if kids.Err? then kids else Rest(s, kids.next, r, stack)
  {
    hide RecipientList;
    assert (stack + [r])[..|stack|] == stack;
  }

  lemma RestStep(s: seq<byte>, i: nat, remaining: nat, stack: seq<nat>)
    requires |stack| <= CBOR_MAX_DEPTH && remaining > 0
    ensures var h := RecipientHead(s, i);
      Rest(s, i, remaining, stack)
      == if h.Err? then Err(h.error)
         else if h.value.0 == 4 then
           var m := DecodeArray(s, h.next, false);
           if m.Err? then Err(m.error)
           else if m.value == 0 then Err(CborMalformed)
           else if |stack| == CBOR_MAX_DEPTH then Err(CborDepth)
           else Rest(s, m.next, m.value, stack + [remaining - 1])
         else Rest(s, h.next, remaining - 1, stack)
  {
    hide RecipientList, RecipientHead, DecodeArray;
    ListStep(s, i, remaining, CBOR_MAX_DEPTH - |stack|);
    var h := RecipientHead(s, i);
    if h.Ok? && h.value.0 == 4 && |stack| < CBOR_MAX_DEPTH {
      var m := DecodeArray(s, h.next, false);
      if m.Ok? {
        RestPush(s, m.next, m.value, remaining - 1, stack);
      }
    }
  }

  lemma RestPop(s: seq<byte>, i: nat, stack: seq<nat>)
    requires 0 < |stack| <= CBOR_MAX_DEPTH
    ensures Rest(s, i, 0, stack) == Rest(s, i, stack[|stack| - 1], stack[..|stack| - 1])
  {
  }

  lemma RestEnds(s: seq<byte>, i: nat)
    ensures Rest(s, i, 0, []) == Ok((), i)
    ensures Rest(s, i, 1, []) == RecipientList(s, i, 1, CBOR_MAX_DEPTH)
  {
    hide RecipientList;
    ListNone(s, i, CBOR_MAX_DEPTH);
  }

  lemma RecipientFailure(s: seq<byte>, i: nat)
    ensures var r := RecipientList(s, i, 1, CBOR_MAX_DEPTH);
      SkippedRecipient(s, i) == if r.Err? then Err(r.error) else Ok(RecipientHead(s, i).value.1, r.next)
    ensures RecipientList(s, i, 1, CBOR_MAX_DEPTH).Ok? ==> RecipientHead(s, i).Ok?
  {
    hide RecipientHead, RecipientList;
    ListStep(s, i, 1, CBOR_MAX_DEPTH);
  }

  /** `wolfCose_DecodeSkippedRecipient`: one recipient and everything nested in it, with
      an explicit stack of how many recipients are left at every enclosing level. */
  method DecodeSkippedRecipient(ctx: Decoder) returns (ret: Status, recipientAlg: i64)
    modifies ctx
    ensures ret == SkippedRecipient(ctx.cbuf, old(ctx.idx)).Status()
    ensures ret.Success? ==> SkippedRecipient(ctx.cbuf, old(ctx.idx)) == Ok(recipientAlg, ctx.idx)
  {
    hide RecipientList, RecipientHead, RecipientEntry, DecodeArray, Rest, SkippedRecipient;
    var stack := new nat[CBOR_MAX_DEPTH];
    var depth: nat, remaining: nat := 0, 1;
    var firstRecipient := true;
    ret, recipientAlg := Success, ALG_UNSET;
    ghost var goal := RecipientList(ctx.cbuf, ctx.idx, 1, CBOR_MAX_DEPTH);
    RestEnds(ctx.cbuf, ctx.idx);
    RecipientFailure(ctx.cbuf, ctx.idx);
    assert stack[..0] == [];
    while ret.Success? && remaining > 0
      invariant 0 <= depth <= CBOR_MAX_DEPTH
      invariant remaining == 0 ==> depth == 0
      invariant ret.Success? ==> Rest(ctx.cbuf, ctx.idx, remaining, stack[..depth]) == goal
      invariant ret.Fail? ==> goal == Err(ret.error)
      invariant firstRecipient ==> ctx.idx == old(ctx.idx) && remaining == 1
      invariant ret.Success? && !firstRecipient ==>
        RecipientHead(ctx.cbuf, old(ctx.idx)).Ok? && recipientAlg == RecipientHead(ctx.cbuf, old(ctx.idx)).value.1
      decreases ret.Success?, if ctx.idx > |ctx.cbuf| then 0 else |ctx.cbuf| - ctx.idx + 1
    {
      ghost var before := stack[..depth];
      RestStep(ctx.cbuf, ctx.idx, remaining, before);
      HeadOfEntry(ctx.cbuf, ctx.idx);
      EntryAdvances(ctx.cbuf, ctx.idx);
      var arrayCount, decodedAlg;
      ret, arrayCount, decodedAlg := DecodeSkippedRecipientEntry(ctx);
      remaining := remaining - 1;
      if ret.Success? && arrayCount == 4 && decodedAlg == ALG_DIRECT {
        ret := Fail(CoseBadHdr);
      }
      if ret.Success? && firstRecipient {
        recipientAlg := decodedAlg;
        firstRecipient := false;
      }
      if ret.Success? && arrayCount == 4 {
        var nestedCount;
        ret, nestedCount := ctx.DecodeArray(false);
        if ret.Success? && (nestedCount == 0 || nestedCount > |ctx.cbuf|) {
          ret := Fail(CborMalformed);
        }
        if ret.Success? && depth >= CBOR_MAX_DEPTH {
          ret := Fail(CborDepth);
        }
        if ret.Success? {
          stack[depth] := remaining;
          depth := depth + 1;
          remaining := nestedCount;
          assert stack[..depth] == before + [stack[depth - 1]];
        }
      }
      ghost var here := ctx.idx;
      while ret.Success? && remaining == 0 && depth > 0
        invariant ctx.idx == here
        invariant 0 <= depth <= CBOR_MAX_DEPTH
        invariant ret.Success? ==> Rest(ctx.cbuf, ctx.idx, remaining, stack[..depth]) == goal
        decreases depth
      {
        RestPop(ctx.cbuf, ctx.idx, stack[..depth]);
        assert stack[..depth][..depth - 1] == stack[..depth - 1];
        depth := depth - 1;
        remaining := stack[depth];
      }
      if ret.Fail? {
        break;
      }
    }
    if ret.Success? {
      RestEnds(ctx.cbuf, ctx.idx);
      assert stack[..0] == [];
    }
  }

  lemma EntryAdvances(s: seq<byte>, i: nat)
    ensures RecipientEntry(s, i).Ok? ==> i < RecipientEntry(s, i).next <= |s|
  {
    hide DecodeArray, RecipientFields;
  }

  // ----- The recipient-mode state machine -----

  const ALG_DIRECT_HKDF_SHA_256 := -10
  const ALG_DIRECT_HKDF_SHA_512 := -11
  const ALG_DIRECT_HKDF_AES_128 := -12
  const ALG_DIRECT_HKDF_AES_256 := -13
  const ALG_ECDH_ES_HKDF_256 := -25
  const ALG_ECDH_ES_HKDF_512 := -26
  const ALG_ECDH_SS_HKDF_256 := -27
  const ALG_ECDH_SS_HKDF_512 := -28

  const MODE_NONE := 0
  const MODE_DIRECT_ENCRYPTION := 1
  const MODE_DIRECT_AGREEMENT := 2
  const MODE_KEY_TRANSPORT := 3

  /** The mode an algorithm belongs to. */
  function Mode(alg: int): (m: int) {
    if alg == ALG_DIRECT || alg == ALG_DIRECT_HKDF_SHA_256 || alg == ALG_DIRECT_HKDF_SHA_512
       || alg == ALG_DIRECT_HKDF_AES_128 || alg == ALG_DIRECT_HKDF_AES_256 then MODE_DIRECT_ENCRYPTION
    else if alg == ALG_ECDH_ES_HKDF_256 || alg == ALG_ECDH_ES_HKDF_512
            || alg == ALG_ECDH_SS_HKDF_256 || alg == ALG_ECDH_SS_HKDF_512 then MODE_DIRECT_AGREEMENT
    else MODE_KEY_TRANSPORT
  }

  /** The common mode after one more recipient, or the refusal of that recipient. */
  function NextMode(alg: int, common: int): (r: Option<int>) {
    if alg == ALG_UNSET then None
    else if common == MODE_NONE then Some(Mode(alg))
    else if common != Mode(alg) || Mode(alg) == MODE_DIRECT_AGREEMENT then None
    else Some(common)
  }

  /** `wolfCose_UpdateRecipientMode`, with the common mode passed in and out. */
  method UpdateRecipientMode(alg: int, common: int) returns (ret: Status, common': int)
    ensures ret.Success? <==> NextMode(alg, common).Some?
    ensures ret.Fail? ==> ret.error == CoseBadAlg && common' == common
    ensures ret.Success? ==> NextMode(alg, common) == Some(common')
  {
    ret, common' := Success, common;
    var mode := 0;
    if alg == ALG_UNSET {
      ret := Fail(CoseBadAlg);
    } else if alg == ALG_DIRECT || alg == ALG_DIRECT_HKDF_SHA_256 || alg == ALG_DIRECT_HKDF_SHA_512
              || alg == ALG_DIRECT_HKDF_AES_128 || alg == ALG_DIRECT_HKDF_AES_256 {
      mode := MODE_DIRECT_ENCRYPTION;
    } else if alg == ALG_ECDH_ES_HKDF_256 || alg == ALG_ECDH_ES_HKDF_512
              || alg == ALG_ECDH_SS_HKDF_256 || alg == ALG_ECDH_SS_HKDF_512 {
      mode := MODE_DIRECT_AGREEMENT;
    } else {
      mode := MODE_KEY_TRANSPORT;
    }
    if ret.Success? && common == 0 {
      common' := mode;
    } else if ret.Success? && (common != mode || mode == MODE_DIRECT_AGREEMENT) {
      ret := Fail(CoseBadAlg);
    }
  }

  /** The common mode of a list of recipients, updated one recipient at a time. */
  function FoldModes(algs: seq<int>, common: int): (r: Option<int>) {
    if algs == [] then Some(common)
    else match NextMode(algs[0], common)
      case None => None
      case Some(c) => FoldModes(algs[1..], c)
  }

  /** Section 8.5 of RFC 9052: every algorithm is set, all are of one mode, and direct
      key agreement stands alone. */
  predicate Compatible(algs: seq<int>) {
    && (forall i :: 0 <= i < |algs| ==> algs[i] != ALG_UNSET)
    && (forall i, j :: 0 <= i < |algs| && 0 <= j < |algs| ==> Mode(algs[i]) == Mode(algs[j]))
    && (forall i :: 0 <= i < |algs| && Mode(algs[i]) == MODE_DIRECT_AGREEMENT ==> |algs| == 1)
  }

  lemma {:induction false} FoldFromMode(algs: seq<int>, common: int)
    requires common != MODE_NONE
    ensures FoldModes(algs, common).Some?
       <==> forall i :: 0 <= i < |algs| ==>
              algs[i] != ALG_UNSET && Mode(algs[i]) == common && common != MODE_DIRECT_AGREEMENT
    ensures FoldModes(algs, common).Some? ==> FoldModes(algs, common) == Some(common)
  {
    if algs != [] {
      assert forall i :: 0 < i < |algs| ==> algs[i] == algs[1..][i - 1];
      FoldFromMode(algs[1..], common);
      if FoldModes(algs, common).Some? {
        forall i | 0 <= i < |algs|
          ensures algs[i] != ALG_UNSET && Mode(algs[i]) == common && common != MODE_DIRECT_AGREEMENT
        {
          assert i > 0 ==> algs[i] == algs[1..][i - 1];
        }
      }
    }
  }

  /** Updating the mode over a list of recipients succeeds exactly when they are compatible. */
  lemma FoldIffCompatible(algs: seq<int>)
    ensures FoldModes(algs, MODE_NONE).Some? <==> Compatible(algs)
  {
    if algs != [] && algs[0] != ALG_UNSET {
      var rest := algs[1..];
      FoldFromMode(rest, Mode(algs[0]));
      assert forall i :: 0 < i < |algs| ==> algs[i] == rest[i - 1];
      if Compatible(algs) {
        forall i | 0 <= i < |rest|
          ensures rest[i] != ALG_UNSET && Mode(rest[i]) == Mode(algs[0]) && Mode(algs[0]) != MODE_DIRECT_AGREEMENT
        {
          assert rest[i] == algs[i + 1];
        }
      }
      if FoldModes(algs, MODE_NONE).Some? {
        forall i | 0 <= i < |algs|
          ensures algs[i] != ALG_UNSET && Mode(algs[i]) == Mode(algs[0])
          ensures Mode(algs[i]) == MODE_DIRECT_AGREEMENT ==> |algs| == 1
        {
          if i > 0 {
            assert algs[i] == rest[i - 1];
          }
          if |algs| > 1 {
            assert rest[0] == algs[1];
          }
        }
      }
    }
  }

  /** Whether a list of recipients is accepted does not depend on their order. */
  lemma OrderDoesNotMatter(algs: seq<int>, others: seq<int>)
    requires multiset(algs) == multiset(others)
    ensures FoldModes(algs, MODE_NONE).Some? <==> FoldModes(others, MODE_NONE).Some?
  {
    FoldIffCompatible(algs);
    FoldIffCompatible(others);
    assert |algs| == |multiset(algs)| == |multiset(others)| == |others|;
    SameMembers(algs, others);
    SameMembers(others, algs);
  }

  lemma SameMembers(algs: seq<int>, others: seq<int>)
    requires multiset(algs) == multiset(others) && |algs| == |others|
    ensures Compatible(algs) ==> Compatible(others)
  {
    if Compatible(algs) {
      forall i, j | 0 <= i < |others| && 0 <= j < |others|
        ensures others[i] != ALG_UNSET && Mode(others[i]) == Mode(others[j])
        ensures Mode(others[i]) == MODE_DIRECT_AGREEMENT ==> |others| == 1
      {
        assert others[i] in multiset(others) && others[j] in multiset(others);
        assert others[i] in algs && others[j] in algs;
      }
    }
  }

  /** Direct encryption, with or without a key derivation. */
  predicate Direct(alg: int) {
    alg == -6 || alg == -10 || alg == -11 || alg == -12 || alg == -13
  }

  /** Direct key agreement. */
  predicate Agreement(alg: int) {
    alg == -25 || alg == -26 || alg == -27 || alg == -28
  }

  /** A list of recipients goes together if and only if every one names an algorithm, and all encrypt directly, or
      there is one alone that agrees on a key, or none does either. */
  lemma ModesExactly(algs: seq<int>)
    ensures FoldModes(algs, 0).Some?
       <==> && (forall i :: 0 <= i < |algs| ==> algs[i] != 0)
            && (|| (forall i :: 0 <= i < |algs| ==> Direct(algs[i]))
                || (|algs| == 1 && Agreement(algs[0]))
                || (forall i :: 0 <= i < |algs| ==> !Direct(algs[i]) && !Agreement(algs[i])))
  {
    hide FoldModes, Direct, Agreement, Mode;
    FoldIffCompatible(algs);
    forall i | 0 <= i < |algs|
      ensures Mode(algs[i]) == if Direct(algs[i]) then 1 else if Agreement(algs[i]) then 2 else 3
      ensures !(Direct(algs[i]) && Agreement(algs[i]))
    {
      ModeIs(algs[i]);
    }
  }

  lemma ModeIs(alg: int)
    ensures Mode(alg) == if Direct(alg) then 1 else if Agreement(alg) then 2 else 3
    ensures !(Direct(alg) && Agreement(alg))
  {
  }
}
