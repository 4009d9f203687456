/**
 Peeking at, decoding, measuring and encoding COSE_Keys as the library does, proved against
 Keys.dfy and KeyWriting.dfy.
 */
module KeyContext {
  import opened Wire
  import opened Cbor
  import opened CborContext
  import opened Header
  import opened HeaderState
  import opened Keys

  /** The routing fields of a key, as a record that is filled in. */
  class KeyRecord {
    var kty: int
    var alg: int
    var crv: int
    var kid: Option<seq<byte>>

    function View(): KeyInfo
      reads this
    {
      KeyInfo(kty, alg, crv, kid)
    }

    constructor ()
      ensures View() == NO_INFO
    {
      kty, alg, crv, kid := 0, 0, 0, None;
    }

    method Clear()
      modifies this
      ensures View() == NO_INFO
    {
      kty, alg, crv, kid := 0, 0, 0, None;
    }
  }

  /** A label: text labels are refused (`wolfCose_SkipIfTstrLabel`), and so are repeated ones. */
  method DecodeKeyLabel(ctx: Decoder, state: HdrState) returns (ret: Status, lbl: i64)
    requires state.Valid() && |state.extraIntegerLabels| < MAX_MAP_ITEMS
    modifies ctx, state
    ensures state.Valid() && |state.extraIntegerLabels| <= |old(state.extraIntegerLabels)| + 1
    ensures var r := KeyLabel(ctx.cbuf, old(ctx.idx));
      if r.Err? then ret == Fail(r.error)
      else
        && r == Ok(lbl, ctx.idx)
        && ret == (if IntLabel(lbl) in old(state.labels) then Fail(CborMalformed) else Success)
        && (ret.Success? ==> state.labels == old(state.labels) + {IntLabel(lbl)})
  {
    hide Cbor.DecodeInt, HdrState.Valid;
    lbl := 0;
    if ctx.idx >= |ctx.cbuf| {
      return Fail(CborMalformed), lbl;
    }
    var major := ctx.PeekType();
    if major == TSTR {
      return Fail(CborMalformed), lbl;
    }
    ret, lbl := ctx.DecodeInt(false);
    if ret.Success? {
      ret := state.CheckAndAdd(lbl);
    }
  }

  method DecodeKty(ctx: Decoder) returns (ret: Status, kty: int)
    modifies ctx
    ensures var r := KtyAt(ctx.cbuf, old(ctx.idx)); ret == r.Status() && (ret.Success? ==> r == Ok(kty, ctx.idx))
  {
    hide Cbor.DecodeUint;
    ret, kty := ctx.DecodeUint(false);
    if ret.Success? && kty > INT32_MAX {
      ret := Fail(CoseBadHdr);
    }
  }

  method DecodeKeyAlg(ctx: Decoder) returns (ret: Status, alg: int)
    modifies ctx
    ensures var r := AlgAt(ctx.cbuf, old(ctx.idx)); ret == r.Status() && (ret.Success? ==> r == Ok(alg, ctx.idx))
  {
    hide Cbor.DecodeInt;
    ret, alg := ctx.DecodeInt(false);
    if ret.Success? && !InInt32(alg) {
      ret := Fail(CoseBadAlg);
    }
  }

  method DecodeCrv(ctx: Decoder) returns (ret: Status, crv: int)
    modifies ctx
    ensures var r := CrvAt(ctx.cbuf, old(ctx.idx)); ret == r.Status() && (ret.Success? ==> r == Ok(crv, ctx.idx))
  {
    hide Cbor.DecodeInt;
    ret, crv := ctx.DecodeInt(false);
    if ret.Success? && !InInt32(crv) {
      ret := Fail(CoseBadHdr);
    }
  }

  // ----- Peeking -----

  method PeekValue(ctx: Decoder, info: KeyRecord, lbl: i64) returns (ret: Status)
    modifies ctx, info
    ensures var r := PeekEntry(ctx.cbuf, old(ctx.idx), lbl, old(info.View()));
      ret == r.Status() && (ret.Success? ==> r == Ok(info.View(), ctx.idx))
  {
    hide KtyAt, AlgAt, CrvAt, Cbor.DecodeString, Cbor.Skip;
    ret := Success;
    if lbl == KTY {
      var n;
      ret, n := DecodeKty(ctx);
      info.kty := n;
    } else if lbl == KEY_KID {
      var b;
      ret, b := ctx.DecodeBstr(false);
      info.kid := Some(b);
    } else if lbl == KEY_ALG {
      var n;
      ret, n := DecodeKeyAlg(ctx);
      info.alg := n;
    } else if lbl == KEY_OPS {
      ret := Fail(Unsupported);
    } else if lbl == CRV {
      var major := ctx.PeekType();
      if major == BSTR {
        ret := ctx.Skip(false);
      } else {
        var n;
        ret, n := DecodeCrv(ctx);
        info.crv := n;
      }
    } else {
      ret := ctx.Skip(false);
    }
  }

  /** `wc_CoseKey_PeekInfo`: on failure nothing of a key is left in the record. */
  method PeekInfo(s: seq<byte>, info: KeyRecord) returns (ret: Status)
    modifies info
    ensures ret == Peek(s).Status()
    ensures ret.Success? ==> info.View() == Peek(s).value
    ensures ret.Fail? && s != [] ==> info.View() == NO_INFO
  {
    hide PeekEntries, Cbor.DecodeContainer, KeyLabel, PeekEntry, HdrState.Valid;
    if |s| == 0 {
      return Fail(InvalidArg);
    }
    info.Clear();
    var ctx := new Decoder(s);
    var state := new HdrState();
    var mapCount;
    ret, mapCount := ctx.DecodeMap(false);
    if ret.Success? && mapCount > MAX_MAP_ITEMS {
      ret := Fail(CborMalformed);
    }
    if ret.Fail? {
      return;
    }
    ghost var goal := PeekEntries(s, ctx.idx, mapCount, {}, NO_INFO);
    var i := 0;
    while ret.Success? && i < mapCount
      invariant 0 <= i <= mapCount && state.Valid() && (ret.Success? ==> |state.extraIntegerLabels| <= i)
      invariant ret.Fail? ==> goal == Err(ret.error)
      invariant ret.Success? ==> goal == PeekEntries(s, ctx.idx, mapCount - i, state.labels, info.View())
      decreases ret.Success?, mapCount - i
    {
      PeekUnfold(s, ctx.idx, mapCount - i, state.labels, info.View());
      var lbl;
      ret, lbl := DecodeKeyLabel(ctx, state);
      if ret.Success? {
        ret := PeekValue(ctx, info, lbl);
      }
      i := i + 1;
    }
    if ret.Success? {
      PeekNone(s, ctx.idx, state.labels, info.View());
      if info.kty == 0 {
        ret := Fail(CoseBadHdr);
      }
    }
    if ret.Success? && ctx.idx != |s| {
      ret := Fail(CborMalformed);
    }
    if ret.Fail? {
      info.Clear();
    }
  }

  lemma PeekUnfold(s: seq<byte>, i: nat, n: nat, seen: set<Label>, info: KeyInfo)
    requires n > 0
    ensures var l := KeyLabel(s, i); var all := PeekEntries(s, i, n, seen, info);
      if l.Err? then all == Err(l.error)
      else if IntLabel(l.value) in seen then all == Err(CborMalformed)
      else
        var v := PeekEntry(s, l.next, l.value, info);
        if v.Err? then all == Err(v.error)
        else all == PeekEntries(s, v.next, n - 1, seen + {IntLabel(l.value)}, v.value)
  {
    hide KeyLabel, PeekEntry;
  }

  lemma PeekNone(s: seq<byte>, i: nat, seen: set<Label>, info: KeyInfo)
    ensures PeekEntries(s, i, 0, seen, info) == Ok(info, i)
  {
  }

  // ----- Decoding -----

  method DecodeRareValue(ctx: Decoder, lbl: i64, p: Parts) returns (ret: Status, p': Parts)
    modifies ctx
    ensures var r := RareEntry(ctx.cbuf, old(ctx.idx), lbl, p);
      ret == r.Status() && (ret.Success? ==> r == Ok(p', ctx.idx))
  {
    hide Cbor.DecodeString, Cbor.Skip;
    p' := p;
    if lbl == RSA_Q || lbl == RSA_DP || lbl == RSA_DQ || lbl == RSA_QINV {
      var major := ctx.PeekType();
      if major == BSTR {
        var b;
        ret, b := ctx.DecodeBstr(false);
        if lbl == RSA_Q {
          p' := p.(q := Some(b));
        } else if lbl == RSA_DP {
          p' := p.(dp := Some(b));
        } else if lbl == RSA_DQ {
          p' := p.(dq := Some(b));
        } else {
          p' := p.(qi := Some(b));
        }
      } else {
        p' := p.(rsaTypes := false);
        ret := ctx.Skip(false);
      }
    } else {
      ret := ctx.Skip(false);
    }
  }

  /** The value of an entry, into the record or the other parts. */
  method DecodeValue(ctx: Decoder, key: KeyRecord, lbl: i64, p: Parts) returns (ret: Status, p': Parts)
    requires p.info == key.View()
    modifies ctx, key
    ensures var r := DecodeEntry(ctx.cbuf, old(ctx.idx), lbl, p);
      ret == r.Status() && (ret.Success? ==> r == Ok(p', ctx.idx) && p'.info == key.View())
  {
    hide KtyAt, AlgAt, CrvAt, Cbor.DecodeString, Cbor.Skip, RareEntry;
    p' := p;
    if lbl == KTY {
      var n;
      ret, n := DecodeKty(ctx);
      key.kty := n;
    } else if lbl == KEY_KID {
      var b;
      ret, b := ctx.DecodeBstr(false);
      key.kid := Some(b);
    } else if lbl == KEY_ALG {
      var major := ctx.PeekType();
      if major == TSTR {
        return Fail(CoseBadAlg), p';
      }
      var n;
      ret, n := DecodeKeyAlg(ctx);
      key.alg := n;
    } else if lbl == KEY_OPS {
      return Fail(Unsupported), p';
    } else if lbl == CRV {
      var major := ctx.PeekType();
      if major == BSTR {
        var b;
        ret, b := ctx.DecodeBstr(false);
        p' := p.(n := Some(b));
      } else {
        var n;
        ret, n := DecodeCrv(ctx);
        key.crv := n;
      }
    } else if lbl == X || lbl == Y || lbl == D {
      var b;
      ret, b := ctx.DecodeBstr(false);
      p' := if lbl == X then p.(x := Some(b)) else if lbl == Y then p.(y := Some(b)) else p.(d := Some(b));
    } else {
      ret, p' := DecodeRareValue(ctx, lbl, p);
      RareKeeps(ctx.cbuf, old(ctx.idx), lbl, p);
    }
    p' := p'.(info := key.View());
  }

  lemma RareKeeps(s: seq<byte>, j: nat, lbl: i64, p: Parts)
    ensures RareEntry(s, j, lbl, p).Ok? ==> RareEntry(s, j, lbl, p).value.info == p.info
  {
    hide DecodeBstr, Skip;
  }

  /** The label loop. */
  method ReadParts(s: seq<byte>, key: KeyRecord) returns (ret: Status, p: Parts, e: nat)
    modifies key
    ensures var r := KeyParts(s);
      ret == r.Status() && (ret.Success? ==> r == Ok(p, e) && p.info == key.View())
  {
    hide DecodeEntries, Cbor.DecodeContainer, KeyLabel, DecodeEntry, HdrState.Valid;
    key.Clear();
    p, e := NO_PARTS, 0;
    var ctx := new Decoder(s);
    var state := new HdrState();
    var mapCount;
    ret, mapCount := ctx.DecodeMap(false);
    if ret.Success? && mapCount > MAX_MAP_ITEMS {
      ret := Fail(CborMalformed);
    }
    if ret.Fail? {
      return;
    }
    ghost var goal := DecodeEntries(s, ctx.idx, mapCount, {}, NO_PARTS);
    var i := 0;
    while ret.Success? && i < mapCount
      invariant 0 <= i <= mapCount && state.Valid() && (ret.Success? ==> |state.extraIntegerLabels| <= i)
      invariant ret.Fail? ==> goal == Err(ret.error)
      invariant ret.Success? ==> p.info == key.View() && goal == DecodeEntries(s, ctx.idx, mapCount - i, state.labels, p)
      decreases ret.Success?, mapCount - i
    {
      DecodeUnfold(s, ctx.idx, mapCount - i, state.labels, p);
      var lbl;
      ret, lbl := DecodeKeyLabel(ctx, state);
      if ret.Success? {
        ret, p := DecodeValue(ctx, key, lbl, p);
      }
      i := i + 1;
    }
    if ret.Success? {
      DecodeNone(s, ctx.idx, state.labels, p);
      e := ctx.idx;
    }
  }

  lemma DecodeUnfold(s: seq<byte>, i: nat, n: nat, seen: set<Label>, p: Parts)
    requires n > 0
    ensures var l := KeyLabel(s, i); var all := DecodeEntries(s, i, n, seen, p);
      if l.Err? then all == Err(l.error)
      else if IntLabel(l.value) in seen then all == Err(CborMalformed)
      else
        var v := DecodeEntry(s, l.next, l.value, p);
        if v.Err? then all == Err(v.error)
        else all == DecodeEntries(s, v.next, n - 1, seen + {IntLabel(l.value)}, v.value)
  {
    hide KeyLabel, DecodeEntry;
  }

  lemma DecodeNone(s: seq<byte>, i: nat, seen: set<Label>, p: Parts)
    ensures DecodeEntries(s, i, 0, seen, p) == Ok(p, i)
  {
  }

  /** `wc_CoseKey_Decode`. */
  method Decode(s: seq<byte>, key: KeyRecord, attached: Attached, imported: Parts -> Status) returns (ret: Status)
    modifies key
    ensures var r := DecodeKey(s, attached, imported);
      ret == r.Status() && (ret.Success? ==> key.View() == r.value.info)
  {
    hide KeyParts, KeyStatus;
    if |s| == 0 {
      return Fail(InvalidArg);
    }
    var p, e;
    ret, p, e := ReadParts(s, key);
    if ret.Success? && key.kty == 0 {
      ret := Fail(CoseBadHdr);
    }
    if ret.Success? && key.kty == KTY_RSA && !p.rsaTypes {
      ret := Fail(CoseBadHdr);
    }
    if ret.Success? && e != |s| {
      ret := Fail(CborMalformed);
    }
    if ret.Success? {
      ret := KeyStatus(p, attached);
    }
    if ret.Success? {
      ret := imported(p);
    }
  }
}
