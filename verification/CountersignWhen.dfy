/**
 When a countersignature is added, and what message that gives, spelled out from the entries of the
 message and the bytes (section 3 of RFC 9338).
 */
module CountersignWhen {
  import opened Wire
  import opened Memory
  import opened Cbor
  import opened CborRoundTrip
  import opened Header
  import opened Countersign
  import opened CountersignReparse
  import opened CountersignVerify
  import opened CountersignPlan
  import opened CountersignAdd
  import opened CountersignExact

  // ----- The edited message -----

  /** The protected bucket that names only the algorithm. */
  function AlgOnly(alg: i64): (b: seq<byte>)
    ensures |b| <= 11
  {
    [0xA1, 0x01] + EncodeInt(alg)
  }

  /** What is attached: the signature in a byte string; or an array of the protected bucket, a map that is
      empty or has the key identifier under label 4, and the signature. */
  function NewItem(alg: i64, kid: Bytes, abbreviated: bool, sig: Bytes): (b: seq<byte>) {
    if abbreviated then EncodeBstr(sig)
    else
      [0x83] + EncodeBstr(AlgOnly(alg)) + (if kid == [] then [0xA0] else [0xA1, 0x04] + EncodeBstr(kid)) + EncodeBstr(sig)
  }

  /** A new entry at the end of the unprotected map, under label 12 or 11. */
  function NewEntry(s: seq<byte>, t: Target, abbreviated: bool, item: seq<byte>): (u: seq<byte>)
    requires t.mapStart <= t.mapContentStart <= t.mapEnd <= |s| && t.mapCount + 1 < U64_BOUND
  {
    s[..t.mapStart] + EncodeHead(MAP, t.mapCount + 1) + s[t.mapContentStart..t.mapEnd]
    + [if abbreviated then 0x0C else 0x0B] + item + s[t.mapEnd..]
  }

  /** A value that holds `info.count` countersignatures, and one more behind them. */
  function OneMore(v: seq<byte>, info: ListInfo, item: seq<byte>): (w: seq<byte>)
    requires info.contentOffset <= |v| && info.count + 1 < U64_BOUND
  {
    if info.isList then EncodeHead(ARRAY, info.count + 1) + v[info.contentOffset..] + item
    else [0x82] + v + item
  }

  lemma AlgOnlyIs(alg: i64)
    ensures AlgHeader(alg) == AlgOnly(alg)
  {
    hide EncodeInt;
    assert EncodeHead(MAP, 1) == [0xA1] && EncodeHead(UINT, 1) == [0x01];
  }

  lemma NewItemIs(alg: i64, kid: Bytes, abbreviated: bool, sig: Bytes)
    ensures CounterBytes(abbreviated, if abbreviated then [] else AlgHeader(alg), kid, sig) == NewItem(alg, kid, abbreviated, sig)
  {
    hide EncodeBstr, AlgHeader, AlgOnly;
    AlgOnlyIs(alg);
    SmallHeads();
  }

  lemma SmallHeads()
    ensures EncodeHead(ARRAY, 3) == [0x83] && EncodeHead(ARRAY, 2) == [0x82]
    ensures EncodeHead(MAP, 0) == [0xA0] && EncodeHead(MAP, 1) == [0xA1]
    ensures EncodeInt(4) == [0x04] && EncodeInt(11) == [0x0B] && EncodeInt(12) == [0x0C]
  {
  }

  lemma NewEntryIs(s: seq<byte>, t: Target, abbreviated: bool, item: seq<byte>)
    requires t.mapStart <= t.mapContentStart <= t.mapEnd <= |s| && t.mapCount + 1 < U64_BOUND
    ensures WithEntry(s, t, if abbreviated then 12 else 11, item) == NewEntry(s, t, abbreviated, item)
  {
    hide EncodeHead, EncodeInt;
    SmallHeads();
  }

  lemma OneMoreIs(v: seq<byte>, info: ListInfo, item: seq<byte>)
    requires info.contentOffset <= |v| && info.count < MAX_MAP_ITEMS
    ensures info.count + 1 < U64_BOUND && GrownValue(v, info, item) == OneMore(v, info, item)
  {
    hide EncodeHead;
    SmallHeads();
  }

  /** The message with one more countersignature: the value under label 11 with one more, or one more
      entry; none when the list or the map would hold too many. */
  function Edited(s: seq<byte>, t: Target, abbreviated: bool, item: seq<byte>): (u: Option<seq<byte>>)
    requires t.mapStart <= t.mapContentStart <= t.mapEnd <= |s|
  {
    var e := Find(Entries(s), IntLabel(11));
    if !abbreviated && e.Some? then
      if 0 <= e.value.valueAt <= e.value.end <= |s| then
        var v := s[e.value.valueAt..e.value.end];
        match CounterListInfo(v)
        case Err(_) => None
        case Ok(info, _) =>
          if info.count >= MAX_MAP_ITEMS then None
          else Some(s[..e.value.valueAt] + OneMore(v, info, item) + s[e.value.end..])
      else None
    else if t.mapCount >= MAX_MAP_ITEMS then None
    else Some(NewEntry(s, t, abbreviated, item))
  }

  /** What planning looks for, as entries of the message. */
  lemma Planned(s: seq<byte>, detached: Option<seq<byte>>)
    requires ParseTarget(s, detached).Ok? && |s| <= SIZE_MAX
    ensures var t := ParseTarget(s, detached).value; var e := Find(Entries(s), IntLabel(11));
      && (t.full.Some? <==> e.Some?)
      && (e.Some? ==> 0 <= e.value.valueAt <= e.value.end <= |s| && t.full == Some(Range(e.value.valueAt, e.value.end)))
      && (t.abbreviated.Some? <==> IntLabel(12) in Labels(Entries(s)))
      && (t.legacyAbbreviated.Some? <==> IntLabel(9) in Labels(Entries(s)))
      && (t.legacyFull.Some? <==> IntLabel(7) in Labels(Entries(s)))
  {
    hide ParseTarget, Entries, Find, Labels, Located, ValueOf;
    TargetParts(s, detached);
    LocatedIs(Entries(s), COUNTERSIGNATURE_V2);
    LocatedIs(Entries(s), COUNTERSIGNATURE0_V2);
    LocatedIs(Entries(s), COUNTERSIGNATURE_LEGACY);
    LocatedIs(Entries(s), COUNTERSIGNATURE0_LEGACY);
    var e := Find(Entries(s), IntLabel(11));
    if e.Some? {
      var k :| 0 <= k < |Entries(s)| && Entries(s)[k] == e.value;
      EntryLocated(s, detached, k);
    }
  }

  /** What attaching writes is the edited message. */
  lemma EditedIs(s: seq<byte>, detached: Option<seq<byte>>, abbreviated: bool, item: seq<byte>)
    requires ParseTarget(s, detached).Ok? && |s| <= SIZE_MAX
    ensures var t := ParseTarget(s, detached).value; var u := Edited(s, t, abbreviated, item);
      && (u.Some? <==> if Replaces(t, abbreviated) then Growable(s, t.full.value) else t.mapCount < MAX_MAP_ITEMS)
      && (u.Some? ==> (Replaces(t, abbreviated) ==> Growable(s, t.full.value))
                      && Attached(s, t, abbreviated, item) == u.value
                      && |u.value| == AttachedLen(s, t, abbreviated, |item|))
  {
    hide ParseTarget, Entries, Find, CounterListInfo, GrownValue, OneMore, WithEntry, NewEntry, AttachedLen;
    Planned(s, detached);
    var t := ParseTarget(s, detached).value;
    if Replaces(t, abbreviated) {
      var r := t.full.value;
      if Growable(s, r) {
        OneMoreIs(s[r.start..r.end], CounterListInfo(s[r.start..r.end]).value, item);
        AttachedLenIs(s, t, abbreviated, item);
      }
    } else if t.mapCount < MAX_MAP_ITEMS {
      NewEntryIs(s, t, abbreviated, item);
      AttachedLenIs(s, t, abbreviated, item);
    }
  }

  // ----- When it succeeds -----

  /** The bytes that a new countersignature covers. */
  function CoveredBy(c: Call, t: Target): (b: seq<byte>)
    requires Fits(c) && Sized(t)
  {
    if c.abbreviated then CoveredShort(t, BytesOf(c.extAad), false)
    else Covered(t, AlgOnly(c.alg), BytesOf(c.extAad), false)
  }

  /** The call can be carried out: the key identifier is not empty, the algorithm is not HSS-LMS, no length is
      beyond 32 bits, the message parses, the key promises a length, scratch holds what is covered and the
      signature, the message has no countersignature of the kind that excludes this one, and the edited
      message fits the output. */
  predicate Addable(c: Call) {
    && c.kid != Some([]) && c.alg != -46
    && |c.message| <= 0xFFFF_FFFF && LenOf(c.detached) <= 0xFFFF_FFFF && LenOf(c.extAad) <= 0xFFFF_FFFF
    && c.scratchSz <= 0xFFFF_FFFF && c.outSz <= 0xFFFF_FFFF
    && ParseTarget(c.message, c.detached).Ok? && c.sigLen.Predicted?
    && Sized(ParseTarget(c.message, c.detached).value)
    && CanHold(c, ParseTarget(c.message, c.detached).value)
  }

  predicate CanHold(c: Call, t: Target)
    requires Fits(c) && Sized(t) && c.sigLen.Predicted? && t.mapStart <= t.mapContentStart <= t.mapEnd <= |c.message|
  {
    |CoveredBy(c, t)| + c.sigLen.n <= c.scratchSz && NoneExcludes(c) && FitsOutput(c, t)
  }

  /** The labels that exclude another countersignature of this kind. */
  predicate NoneExcludes(c: Call) {
    var ls := Labels(Entries(c.message));
    if c.abbreviated then IntLabel(12) !in ls && IntLabel(9) !in ls else IntLabel(7) !in ls
  }

  predicate FitsOutput(c: Call, t: Target)
    requires c.sigLen.Predicted? && t.mapStart <= t.mapContentStart <= t.mapEnd <= |c.message|
  {
    var item := NewItem(c.alg, BytesOf(c.kid), c.abbreviated, Zeros(c.sigLen.n));
    match Edited(c.message, t, c.abbreviated, item)
    case None => false
    case Some(u) => |u| <= c.outSz
  }

  lemma CoveredByIs(c: Call, t: Target)
    requires Fits(c) && Sized(t)
    ensures ToSign(c, t) == CoveredBy(c, t)
  {
    hide CounterStructure, FullStructure, FullStructureV2, ShortStructure, ShortStructureV2, AlgHeader, AlgOnly;
    AlgOnlyIs(c.alg);
    var aad := BytesOf(c.extAad);
    if c.abbreviated {
      if t.other.None? {
        ShortIs(t, aad, false);
      } else {
        ShortV2Is(t, aad);
      }
    } else if t.other.None? {
      FullIs(t, AlgOnly(c.alg), aad, false);
    } else {
      FullV2Is(t, AlgOnly(c.alg), aad);
    }
  }

  lemma PlanExactly(c: Call, t: Target)
    requires Fits(c) && Sized(t) && c.sigLen.Predicted? && ParseTarget(c.message, c.detached).Ok?
    requires t == ParseTarget(c.message, c.detached).value
    ensures SignStatus(c, t).Success? <==> CanHold(c, t)
  {
    hide ParseTarget, Entries, Find, Labels, CounterListInfo, ToSign, CoveredBy, Edited, AttachedLen, CounterLen, NewItem,
         CounterBytes, Prot, Zeros;
    CoveredByIs(c, t);
    Planned(c.message, c.detached);
    var item := NewItem(c.alg, BytesOf(c.kid), c.abbreviated, Zeros(c.sigLen.n));
    EditedIs(c.message, c.detached, c.abbreviated, item);
    NewItemIs(c.alg, BytesOf(c.kid), c.abbreviated, Zeros(c.sigLen.n));
    ItemLength(c, Zeros(c.sigLen.n));
    LongerThan(c, t, item);
  }

  lemma ItemLength(c: Call, sig: Bytes)
    ensures |NewItem(c.alg, BytesOf(c.kid), c.abbreviated, sig)|
         == CounterLen(c.abbreviated, |Prot(c)|, LenOf(c.kid), |sig|)
  {
    hide CounterBytes, CounterLen, NewItem, AlgHeader;
    NewItemIs(c.alg, BytesOf(c.kid), c.abbreviated, sig);
    CounterLenIs(c.abbreviated, Prot(c), BytesOf(c.kid), sig);
  }

  /** The edited message is longer than what is attached. */
  lemma LongerThan(c: Call, t: Target, item: seq<byte>)
    requires t.mapStart <= t.mapContentStart <= t.mapEnd <= |c.message|
    ensures var u := Edited(c.message, t, c.abbreviated, item); u.Some? ==> |item| <= |u.value|
  {
    hide Entries, Find, CounterListInfo, EncodeHead;
  }

  /** Nothing refuses the call before the signer if and only if it can be carried out. */
  lemma AddsExactly(c: Call, aliased: bool)
    ensures BeforeSigning(c, aliased).Success? <==> !aliased && Addable(c)
  {
    hide ParseTarget, SignStatus, CanHold;
    if Fits(c) && ParseTarget(c.message, c.detached).Ok? {
      TargetSized(c.message, c.detached);
      if c.sigLen.Predicted? {
        PlanExactly(c, ParseTarget(c.message, c.detached).value);
      } else {
        RefusedLength(c, ParseTarget(c.message, c.detached).value);
      }
    }
  }

  lemma RefusedLength(c: Call, t: Target)
    requires Fits(c) && Sized(t) && c.sigLen.Refused?
    ensures SignStatus(c, t).Fail?
  {
  }

  /** Adding succeeds if and only if the call can be carried out and the signer makes a signature of the
      promised length over what is covered; and then the output begins with the edited message. */
  lemma SucceedsExactly(c: Call, sign: seq<byte> -> Signing, ret: Status, outLen: nat, signed: bool, was: seq<byte>,
                        now: seq<byte>)
    requires Outcome(c, sign, ret, outLen, signed, was, now)
    ensures Addable(c) ==> Fits(c) && Sized(ParseTarget(c.message, c.detached).value)
    ensures ret.Success? <==>
      && Addable(c)
      && var made := sign(CoveredBy(c, ParseTarget(c.message, c.detached).value));
         made.Signed? && |made.sig| == c.sigLen.n
    ensures ret.Success? ==>
      && var t := ParseTarget(c.message, c.detached).value;
         var made := sign(CoveredBy(c, t));
         var u := Edited(c.message, t, c.abbreviated, NewItem(c.alg, BytesOf(c.kid), c.abbreviated, made.sig));
         u == Some(now[..outLen])
  {
    hide ParseTarget, CanHold, BeforeSigning, Added, Edited, NewItem, CoveredBy, TargetFor, ToSign;
    AddsExactly(c, false);
    if Addable(c) {
      var t := ParseTarget(c.message, c.detached).value;
      CoveredByIs(c, t);
      if ret.Success? {
        AddedIsEdited(c, sign(Tbs(c)).sig);
      }
    }
  }

  lemma AddedIsEdited(c: Call, sig: Bytes)
    requires BeforeSigning(c, false).Success?
    ensures Edited(c.message, TargetFor(c), c.abbreviated, NewItem(c.alg, BytesOf(c.kid), c.abbreviated, sig))
         == Some(Added(c, sig))
  {
    hide ParseTarget, BeforeSigning, Edited, NewItem, Attached, CounterBytes, SignStatus, AttachedLen, CounterLen, Growable,
         AlgHeader;
    var t := TargetFor(c);
    NewItemIs(c.alg, BytesOf(c.kid), c.abbreviated, sig);
    EditedIs(c.message, c.detached, c.abbreviated, NewItem(c.alg, BytesOf(c.kid), c.abbreviated, sig));
    Signable(c);
    PlannedGrows(c.message, t, c.abbreviated, CounterLen(c.abbreviated, |Prot(c)|, LenOf(c.kid), c.sigLen.n), c.outSz);
  }

  lemma Signable(c: Call)
    requires BeforeSigning(c, false).Success?
    ensures PlanStatus(c.message, TargetFor(c), c.abbreviated,
                       CounterLen(c.abbreviated, |Prot(c)|, LenOf(c.kid), c.sigLen.n), c.outSz).Success?
  {
    hide ParseTarget, PlanStatus, CounterLen, ToSign;
  }
}
