/**
 Planning an attachment: every check and every size, from the lengths alone, before
 anything is signed or written.
 */
module CountersignPlan {
  import opened Wire
  import opened Cbor
  import opened CborRoundTrip
  import opened Sizes
  import opened Header
  import opened Countersign
  import opened CountersignLists
  import opened CountersignReparse
  import Context = CountersignContext

  /** What is attached: a full countersignature, or an abbreviated one. */
  function CounterBytes(abbreviated: bool, prot: seq<byte>, kid: seq<byte>, sig: seq<byte>): (b: seq<byte>)
    requires |prot| <= SIZE_MAX && |kid| <= SIZE_MAX && |sig| <= SIZE_MAX
  {
    if abbreviated then EncodeBstr(sig) else FullCounterBytes(prot, kid, sig)
  }

  /** Its size, from the lengths alone. */
  function CounterLen(abbreviated: bool, protLen: nat, kidLen: nat, sigLen: nat): (n: nat)
    requires protLen <= SIZE_MAX && kidLen <= SIZE_MAX && sigLen <= SIZE_MAX
  {
    if abbreviated then StringSize(sigLen)
    else 1 + StringSize(protLen) + 1 + (if kidLen != 0 then 1 + StringSize(kidLen) else 0) + StringSize(sigLen)
  }

  /** Whatever the bytes are, their size is the planned one. */
  lemma CounterLenIs(abbreviated: bool, prot: seq<byte>, kid: seq<byte>, sig: seq<byte>)
    requires |prot| <= SIZE_MAX && |kid| <= SIZE_MAX && |sig| <= SIZE_MAX
    ensures |CounterBytes(abbreviated, prot, kid, sig)| == CounterLen(abbreviated, |prot|, |kid|, |sig|)
  {
    hide EncodeString, HeadBytes;
    KidLabel();
  }

  /** Whether the value under label 11 is replaced; otherwise the map gets a new entry. */
  predicate Replaces(t: Target, abbreviated: bool) {
    !abbreviated && t.full.Some?
  }

  /** The message with the countersignature attached. */
  function Attached(s: seq<byte>, t: Target, abbreviated: bool, counter: seq<byte>): (u: seq<byte>)
    requires t.mapStart <= t.mapContentStart <= t.mapEnd <= |s|
    requires Replaces(t, abbreviated) ==> Growable(s, t.full.value)
  {
    if Replaces(t, abbreviated) then WithGrownValue(s, t.full.value, counter)
    else WithEntry(s, t, if abbreviated then COUNTERSIGNATURE0_V2 else COUNTERSIGNATURE_V2, counter)
  }

  /** The size of the attached message, from the size of the countersignature alone. */
  function AttachedLen(s: seq<byte>, t: Target, abbreviated: bool, counterLen: nat): (n: int)
    requires Replaces(t, abbreviated) ==> Growable(s, t.full.value)
  {
    if Replaces(t, abbreviated) then
      |s| - (t.full.value.end - t.full.value.start) + GrownLen(FullValue(s, t.full.value), counterLen)
    else |s| + (SmallHeadSize(t.mapCount + 1) - (t.mapContentStart - t.mapStart)) + 1 + counterLen
  }

  function SmallHeadSize(n: nat): (k: nat) {
    if n < U64_BOUND then HeadSize(n) else 0
  }

  /** The size of the grown value. */
  function GrownLen(v: seq<byte>, counterLen: nat): (n: int) {
    match CounterListInfo(v)
    case Err(_) => 0
    case Ok(info, _) =>
      SmallHeadSize(if info.isList then info.count + 1 else 2)
      + (if info.isList then |v| - info.contentOffset else |v|) + counterLen
  }

  lemma GrownLenIs(v: seq<byte>, counter: seq<byte>)
    requires CounterListInfo(v).Ok? && CounterListInfo(v).value.count < MAX_MAP_ITEMS
    ensures |GrownValue(v, CounterListInfo(v).value, counter)| == GrownLen(v, |counter|)
  {
    hide CounterListInfo, EncodeHead;
  }

  lemma LabelSize()
    ensures |EncodeInt(COUNTERSIGNATURE_V2)| == 1 && |EncodeInt(COUNTERSIGNATURE0_V2)| == 1
  {
  }

  /** Whatever is attached, the size of the message is the planned one. */
  lemma AttachedLenIs(s: seq<byte>, t: Target, abbreviated: bool, counter: seq<byte>)
    requires t.mapStart <= t.mapContentStart <= t.mapEnd <= |s|
    requires Replaces(t, abbreviated) ==> Growable(s, t.full.value)
    ensures |Attached(s, t, abbreviated, counter)| == AttachedLen(s, t, abbreviated, |counter|)
  {
    hide CounterListInfo, EncodeHead, EncodeInt, GrownLen, GrownValue;
    LabelSize();
    if Replaces(t, abbreviated) {
      FullValueIs(s, t.full.value);
      GrownLenIs(FullValue(s, t.full.value), counter);
    }
  }

  /** What planning answers: the refusals of the library in its order, then the sizes. */
  function PlanStatus(s: seq<byte>, t: Target, abbreviated: bool, counterLen: nat, outSz: nat): (r: Status) {
    if abbreviated && (t.abbreviated.Some? || t.legacyAbbreviated.Some?) then Fail(CoseBadHdr)
    else if !abbreviated && t.legacyFull.Some? then Fail(CoseBadHdr)
    else if counterLen > SIZE_MAX then Fail(InvalidArg)
    else if Replaces(t, abbreviated) then
      match CounterListInfo(FullValue(s, t.full.value))
      case Err(e) => Fail(e)
      case Ok(info, _) =>
        if !Growable(s, t.full.value) then Fail(CoseBadHdr)
        else SizeStatus(AttachedLen(s, t, abbreviated, counterLen), outSz)
    else if t.mapCount >= MAX_MAP_ITEMS then Fail(CoseBadHdr)
    else SizeStatus(AttachedLen(s, t, abbreviated, counterLen), outSz)
  }

  function SizeStatus(n: int, outSz: nat): (r: Status) {
    if n > SIZE_MAX then Fail(InvalidArg) else if n > outSz then Fail(BufferTooSmall) else Success
  }

  /** The plan that attaching follows. */
  datatype Plan = Plan(listInfo: ListInfo, oldValueLen: nat, newValueLen: nat, counterLen: nat, delta: nat,
                       finalLen: nat, newMapCount: nat, newMapHeadLen: nat, replacesValue: bool)

  /** The plan for a message, a countersignature size and a kind of countersignature. */
  ghost predicate PlanFor(p: Plan, s: seq<byte>, t: Target, abbreviated: bool, counterLen: nat)
    requires Replaces(t, abbreviated) ==> Growable(s, t.full.value)
  {
    && p.counterLen == counterLen && p.replacesValue == Replaces(t, abbreviated)
    && p.finalLen == AttachedLen(s, t, abbreviated, counterLen) == |s| + p.delta
    && if p.replacesValue then
         var v := FullValue(s, t.full.value);
         && CounterListInfo(v).Ok? && p.listInfo == CounterListInfo(v).value
         && p.oldValueLen == |v| == t.full.value.end - t.full.value.start
         && p.newValueLen == GrownLen(v, counterLen) == p.oldValueLen + p.delta
       else
         && p.newMapCount == t.mapCount + 1 < U64_BOUND && p.newMapHeadLen == HeadSize(t.mapCount + 1)
         && p.delta == (p.newMapHeadLen - (t.mapContentStart - t.mapStart)) + 1 + counterLen
  }

  /** `wolfCose_FullCounterSize`. */
  method FullCounterSize(protectedLen: nat, kidLen: nat, sigLen: nat) returns (ret: Status, encodedLen: nat)
    requires protectedLen <= SIZE_MAX && kidLen <= SIZE_MAX && sigLen <= SIZE_MAX
    ensures var n := CounterLen(false, protectedLen, kidLen, sigLen);
      && ret == (if n <= SIZE_MAX then Success else Fail(InvalidArg))
      && (ret.Success? ==> encodedLen == n)
  {
    hide StringSize;
    encodedLen := 0;
    var total := 1;
    var itemLen;
    ret, itemLen := CborStringSize(protectedLen);
    if ret.Success? {
      ret, total := SizeAdd(total, itemLen);
    }
    if ret.Success? {
      ret, total := SizeAdd(total, 1);
    }
    if ret.Success? && kidLen != 0 {
      ret, total := SizeAdd(total, 1);
      if ret.Success? {
        ret, itemLen := CborStringSize(kidLen);
      }
      if ret.Success? {
        ret, total := SizeAdd(total, itemLen);
      }
    }
    if ret.Success? {
      ret, itemLen := CborStringSize(sigLen);
    }
    if ret.Success? {
      ret, total := SizeAdd(total, itemLen);
    }
    if ret.Success? {
      encodedLen := total;
    }
  }

  /** What planning may rely on about the located value. */
  lemma LocatedValue(s: seq<byte>, detached: Option<seq<byte>>)
    requires ParseTarget(s, detached).Ok? && |s| <= SIZE_MAX && ParseTarget(s, detached).value.full.Some?
    ensures var r := ParseTarget(s, detached).value.full.value; var v := FullValue(s, r);
      && 0 <= r.start < r.end <= |s| && v == s[r.start..r.end] && |v| == r.end - r.start <= SIZE_MAX
      && (Growable(s, r) <==> CounterListInfo(v).Ok? && CounterListInfo(v).value.count < MAX_MAP_ITEMS)
  {
    hide *;
    var k := FullEntry(s, detached);
    GrowableIs(s, ParseTarget(s, detached).value.full.value);
  }

  lemma GrowableIs(s: seq<byte>, r: Range)
    requires 0 <= r.start <= r.end <= |s|
    ensures FullValue(s, r) == s[r.start..r.end]
    ensures Growable(s, r)
       <==> CounterListInfo(FullValue(s, r)).Ok? && CounterListInfo(FullValue(s, r)).value.count < MAX_MAP_ITEMS
  {
    hide CounterListInfo;
  }

  /** The head of a list never shrinks when the list grows, and a single value is one. */
  lemma ValueFacts(v: seq<byte>)
    requires CounterListInfo(v).Ok? && |v| <= SIZE_MAX
    ensures var info := CounterListInfo(v).value;
      && info.count + 1 < U64_BOUND && info.contentOffset <= |v|
      && (info.isList ==> info.contentOffset <= HeadSize(info.count + 1))
      && (!info.isList ==> info.count == 1)
  {
    hide *;
    var info := CounterListInfo(v).value;
    if info.isList {
      InfoOfList(v);
      ListHeadLength(v);
    } else {
      InfoOfSingle(v);
    }
    SmallCount(info.count, v);
  }

  /** The size of a value that is replaced. */
  method PlanNewValue(v: seq<byte>, counterLen: nat) returns (ret: Status, info: ListInfo, newValueLen: nat)
    requires |v| <= SIZE_MAX && counterLen <= SIZE_MAX
    ensures match CounterListInfo(v)
            case Err(e) => ret == Fail(e)
            case Ok(i, _) =>
              if i.isList && i.count >= MAX_MAP_ITEMS then ret == Fail(CoseBadHdr)
              else if GrownLen(v, counterLen) > SIZE_MAX then ret == Fail(InvalidArg)
              else ret == Success && info == i && newValueLen == GrownLen(v, counterLen) >= |v|
  {
    hide CounterListInfo, HeadSize;
    newValueLen := 0;
    ret, info := Context.CounterListInfo(v);
    if ret.Fail? {
      return;
    }
    ValueFacts(v);
    if info.isList {
      var contentLen := |v| - info.contentOffset;
      if info.count >= MAX_MAP_ITEMS {
        return Fail(CoseBadHdr), info, newValueLen;
      }
      newValueLen := Sizes.CborHeadSize(info.count + 1);
      ret, newValueLen := SizeAdd(newValueLen, contentLen);
    } else {
      newValueLen := Sizes.CborHeadSize(2);
      ret, newValueLen := SizeAdd(newValueLen, |v|);
    }
    if ret.Success? {
      ret, newValueLen := SizeAdd(newValueLen, counterLen);
    }
  }

  /** The sizes when the map gets a new entry. */
  method PlanNewEntry(p: Plan, oldMapHeadLen: nat) returns (ret: Status, plan: Plan)
    requires p.counterLen <= SIZE_MAX && p.newMapCount < MAX_MAP_ITEMS
    requires oldMapHeadLen <= HeadSize(p.newMapCount + 1)
    ensures var head := HeadSize(p.newMapCount + 1);
      var delta := (head - oldMapHeadLen) + 1 + p.counterLen;
      && ret == (if delta <= SIZE_MAX then Success else Fail(InvalidArg))
      && (ret.Success? ==> plan == p.(newMapCount := p.newMapCount + 1, delta := delta, newMapHeadLen := head))
  {
    hide HeadSize;
    var newMapCount := p.newMapCount + 1;
    var delta;
    ret, delta := SizeAdd(1, p.counterLen);
    var newMapHeadLen := Sizes.CborHeadSize(newMapCount);
    if ret.Success? {
      ret, delta := SizeAdd(delta, newMapHeadLen - oldMapHeadLen);
    }
    plan := p.(newMapCount := newMapCount, delta := delta, newMapHeadLen := newMapHeadLen);
  }

  lemma ValueOfTarget(s: seq<byte>, t: Target)
    requires t.full.Some? && 0 <= t.full.value.start <= t.full.value.end <= |s|
    ensures var v := FullValue(s, t.full.value);
      && (CounterListInfo(v).Ok? && CounterListInfo(v).value.count < MAX_MAP_ITEMS ==> Growable(s, t.full.value))
      && (CounterListInfo(v).Ok? && !CounterListInfo(v).value.isList ==> Growable(s, t.full.value))
      && (Growable(s, t.full.value) ==> CounterListInfo(v).Ok? && CounterListInfo(v).value.count < MAX_MAP_ITEMS)
  {
    hide CounterItems, FullCounter, DecodeHead;
  }

  /** `wolfCose_PlanAttachCounter`. */
  method PlanAttachCounter(t: Target, s: seq<byte>, ghost detached: Option<seq<byte>>, protectedLen: nat, kidLen: nat,
                           sigLen: nat, abbreviated: bool, outSz: nat) returns (ret: Status, plan: Plan)
    requires |s| <= SIZE_MAX && ParseTarget(s, detached).Ok? && ParseTarget(s, detached).value == t
    requires protectedLen <= SIZE_MAX && kidLen <= SIZE_MAX && sigLen <= SIZE_MAX
    ensures var n := CounterLen(abbreviated, protectedLen, kidLen, sigLen);
      && ret == PlanStatus(s, t, abbreviated, n, outSz)
      && (ret.Success? ==>
            && (Replaces(t, abbreviated) ==> Growable(s, t.full.value))
            && PlanFor(plan, s, t, abbreviated, n) && plan.finalLen <= outSz)
  {
    hide CounterListInfo, ParseTarget, HeadSize, Growable, FullValue, GrownLen, CounterLen;
    var oldMapHeadLen := t.mapContentStart - t.mapStart;
    MapHeadFits(s, detached);
    plan := Plan(ListInfo(0, 0, false), 0, 0, 0, 0, |s|, t.mapCount, 0, false);
    var counterLen;
    ret, counterLen := PlanCounterLen(t, protectedLen, kidLen, sigLen, abbreviated);
    if ret.Fail? {
      return;
    }
    plan := plan.(counterLen := counterLen);
    if !abbreviated && t.full.Some? {
      LocatedValue(s, detached);
      var v := s[t.full.value.start..t.full.value.end];
      var info, newValueLen;
      ret, info, newValueLen := PlanNewValue(v, counterLen);
      ValueOfTarget(s, t);
      if ret.Success? {
        plan := plan.(listInfo := info, oldValueLen := |v|, newValueLen := newValueLen, delta := newValueLen - |v|,
                      replacesValue := true);
      }
    } else {
      if t.mapCount >= MAX_MAP_ITEMS {
        return Fail(CoseBadHdr), plan;
      }
      ret, plan := PlanNewEntry(plan, oldMapHeadLen);
    }
    if ret.Success? {
      var finalLen;
      ret, finalLen := SizeAdd(plan.finalLen, plan.delta);
      plan := plan.(finalLen := finalLen);
      if ret.Success? && plan.finalLen > outSz {
        ret := Fail(BufferTooSmall);
      }
    }
  }

  lemma MapHeadFits(s: seq<byte>, detached: Option<seq<byte>>)
    requires |s| <= SIZE_MAX && ParseTarget(s, detached).Ok?
    ensures var t := ParseTarget(s, detached).value;
      && t.mapCount + 1 < U64_BOUND && t.mapStart <= t.mapContentStart
      && t.mapContentStart - t.mapStart <= HeadSize(t.mapCount + 1)
  {
    hide *;
    MapPlace(s, detached);
    HeadGrows(ParseTarget(s, detached).value.mapCount);
  }

  /** The refusals that depend on the labels alone, and the size of the countersignature. */
  method PlanCounterLen(t: Target, protectedLen: nat, kidLen: nat, sigLen: nat, abbreviated: bool)
    returns (ret: Status, counterLen: nat)
    requires protectedLen <= SIZE_MAX && kidLen <= SIZE_MAX && sigLen <= SIZE_MAX
    ensures var n := CounterLen(abbreviated, protectedLen, kidLen, sigLen);
      && ret == (if abbreviated && (t.abbreviated.Some? || t.legacyAbbreviated.Some?) then Fail(CoseBadHdr)
                 else if !abbreviated && t.legacyFull.Some? then Fail(CoseBadHdr)
                 else if n > SIZE_MAX then Fail(InvalidArg)
                 else Success)
      && (ret.Success? ==> counterLen == n <= SIZE_MAX)
  {
    hide StringSize;
    counterLen := 0;
    if abbreviated {
      if t.abbreviated.Some? || t.legacyAbbreviated.Some? {
        return Fail(CoseBadHdr), counterLen;
      }
      ret, counterLen := CborStringSize(sigLen);
    } else {
      if t.legacyFull.Some? {
        return Fail(CoseBadHdr), counterLen;
      }
      ret, counterLen := FullCounterSize(protectedLen, kidLen, sigLen);
    }
  }
}
