/**
 Attaching: the message is moved apart inside the output buffer by a chain of moves
 that overlap, and the countersignature is written into the gap.
 */
module CountersignAttach {
  import opened Wire
  import opened Memory
  import opened Cbor
  import opened CborRoundTrip
  import opened CborEncoder
  import opened Sizes
  import opened Header
  import opened Countersign
  import opened CountersignLists
  import opened CountersignReparse
  import opened CountersignPlan
  import opened CountersignBuild

  // ----- Parts of an array -----

  /** `part` stands in `a` from `k` on. */
  ghost predicate At(a: seq<byte>, k: nat, part: seq<byte>) {
    k + |part| <= |a| && a[k..k + |part|] == part
  }

  /** A patch leaves alone what stands beside it. */
  lemma PatchKeeps(a: seq<byte>, k: nat, b: seq<byte>, i: nat, part: seq<byte>)
    requires k + |b| <= |a| && At(a, i, part) && (i + |part| <= k || k + |b| <= i)
    ensures At(Patch(a, k, b), i, part)
  {
    var r := Patch(a, k, b);
    PatchParts(a, k, b);
    hide Patch;
    forall m | 0 <= m < |part|
      ensures r[i..i + |part|][m] == part[m]
    {
      assert r[i + m] == a[i + m] == a[i..i + |part|][m];
    }
  }

  lemma PatchPuts(a: seq<byte>, k: nat, b: seq<byte>)
    requires k + |b| <= |a|
    ensures At(Patch(a, k, b), k, b) && |Patch(a, k, b)| == |a|
  {
  }

  lemma AtPart(a: seq<byte>, k: nat, s: seq<byte>, i: nat, j: nat)
    requires At(a, k, s) && i <= j <= |s|
    ensures At(a, k + i, s[i..j]) && k + j <= |a| && a[k + i..k + j] == s[i..j]
  {
    SubSlice(a, k, k + |s|, i, j);
  }

  lemma AtJoin(a: seq<byte>, k: nat, p: seq<byte>, q: seq<byte>)
    requires At(a, k, p) && At(a, k + |p|, q)
    ensures At(a, k, p + q)
  {
    SliceSplit(a, k, k + |p|, k + |p| + |q|);
  }

  lemma WithinTwice(a: seq<byte>, b: seq<byte>, c: seq<byte>, at: nat, size: nat)
    requires OnlyWithin(a, b, at, size) && OnlyWithin(b, c, at, size)
    ensures OnlyWithin(a, c, at, size)
  {
  }

  lemma WithinLarger(a: seq<byte>, b: seq<byte>, at: nat, size: nat, lo: nat, n: nat)
    requires OnlyWithin(a, b, at, size) && lo <= at && at + size <= lo + n <= |a|
    ensures OnlyWithin(a, b, lo, n)
  {
    assert a[..lo] == a[..at][..lo] == b[..at][..lo] == b[..lo];
    var d := lo + n - (at + size);
    assert a[lo + n..] == a[at + size..][d..] == b[at + size..][d..] == b[lo + n..];
  }

  lemma WithinSelf(a: seq<byte>, at: nat, size: nat)
    requires at + size <= |a|
    ensures OnlyWithin(a, a, at, size)
  {
  }

  /** A part of an array that holds `part` moved to another place of it. */
  method MovePart(buf: array<byte>, dst: nat, src: nat, ghost part: seq<byte>, len: nat, ghost lo: nat, ghost n: nat)
    requires len == |part| && At(buf[..], src, part) && lo <= dst && dst + len <= lo + n <= buf.Length
    modifies buf
    ensures buf[..] == Patch(old(buf[..]), dst, part)
    ensures At(buf[..], dst, part) && OnlyWithin(old(buf[..]), buf[..], lo, n)
  {
    hide Patch, OnlyWithin;
    assert buf[src..src + len] == buf[..][src..src + len];
    MemMove(buf, dst, src, len);
    PatchPuts(old(buf[..]), dst, part);
    PatchWithin(old(buf[..]), lo, n, dst, part);
  }

  /** The list head written over, and the countersignature behind, the value that is at
      `start`: the content of the value already stands behind the new head. */
  method WriteGrown(buf: array<byte>, start: nat, size: nat, count: u64, headLen: nat, contentLen: nat,
                    ghost content: seq<byte>, prot: seq<byte>, kid: seq<byte>, sig: seq<byte>)
    returns (ret: Status)
    requires |prot| <= SIZE_MAX && |kid| <= SIZE_MAX && |sig| <= SIZE_MAX
    requires headLen == HeadSize(count) && contentLen == |content| && start + size <= buf.Length
    requires At(buf[..], start + headLen, content)
    requires size == headLen + contentLen + |FullCounterBytes(prot, kid, sig)|
    modifies buf
    ensures ret == Success
    ensures At(buf[..], start, EncodeHead(ARRAY, count) + content + FullCounterBytes(prot, kid, sig))
    ensures OnlyWithin(old(buf[..]), buf[..], start, size)
  {
    hide Patch, OnlyWithin, Encoder.Valid, EncodeHead, FullCounterBytes, HeadSize, At;
    ghost var head, ctr := EncodeHead(ARRAY, count), FullCounterBytes(prot, kid, sig);
    ghost var a := buf[..];
    var ctx := new Encoder(buf, start, size);
    ret := ctx.EncodeArrayStart(count);
    Nothing(head);
    ctx.Done();
    ctx.ValidIsConfined();
    PatchPuts(a, start, head);
    PatchKeeps(a, start, head, start + headLen, content);
    if ret.Success? {
      ctx.Seek(headLen + contentLen);
      ghost var b := buf[..];
      ret := EncodeFullCounter(ctx, prot, kid, sig);
      Nothing(ctr);
      ctx.Done();
      ctx.ValidIsConfined();
      ghost var k := start + headLen + contentLen;
      PatchPuts(b, k, ctr);
      PatchKeeps(b, k, ctr, start, head);
      PatchKeeps(b, k, ctr, start + headLen, content);
      WithinTwice(a, b, buf[..], start, size);
      if ret.Success? && ctx.idx != size {
        ret := Fail(CborMalformed);
      }
      AtJoin(buf[..], start, head, content);
      AtJoin(buf[..], start, head + content, ctr);
    }
  }

  /** The label and the value of a new entry. */
  method EncodeEntry(ctx: Encoder, abbreviated: bool, prot: seq<byte>, kid: seq<byte>, sig: seq<byte>)
    returns (ret: Status)
    requires ctx.Valid() && |prot| <= SIZE_MAX && |kid| <= SIZE_MAX && |sig| <= SIZE_MAX
    modifies ctx`idx, ctx`written, ctx.buf
    ensures ctx.Valid()
    ensures var e := EncodeInt(CounterLabel(abbreviated)) + CounterBytes(abbreviated, prot, kid, sig);
      && ret == (if old(ctx.idx) + |e| <= ctx.bufSz then Success else Fail(BufferTooSmall))
      && (ret.Success? ==> ctx.written == old(ctx.written) + e && ctx.idx == old(ctx.idx) + |e|)
  {
    hide Encoder.Valid, FullCounterBytes, EncodeInt, EncodeBstr;
    ghost var w := ctx.written;
    ret := ctx.EncodeInt(if abbreviated then COUNTERSIGNATURE0_V2 else COUNTERSIGNATURE_V2);
    if ret.Success? && abbreviated {
      ret := ctx.EncodeBstr(sig);
    } else if ret.Success? {
      ret := EncodeFullCounter(ctx, prot, kid, sig);
    }
    Behind(w, EncodeInt(CounterLabel(abbreviated)), CounterBytes(abbreviated, prot, kid, sig));
  }

  /** The map head written over the old one, in front of content that stays. */
  method HeadOver(ctx: Encoder, count: u64, ghost content: seq<byte>, ghost back: seq<byte>, ghost entryEnd: nat)
    returns (ret: Status)
    requires ctx.Valid() && ctx.idx == ctx.from == 0 && ctx.written == []
    requires HeadSize(count) + |content| <= entryEnd && entryEnd + |back| == ctx.bufSz
    requires At(ctx.buf[..], ctx.base + HeadSize(count), content) && At(ctx.buf[..], ctx.base + entryEnd, back)
    modifies ctx`idx, ctx`written, ctx.buf
    ensures ret == Success && ctx.Valid() && ctx.base + ctx.bufSz <= ctx.buf.Length
    ensures At(ctx.buf[..], ctx.base, EncodeHead(MAP, count))
    ensures At(ctx.buf[..], ctx.base + HeadSize(count), content) && At(ctx.buf[..], ctx.base + entryEnd, back)
    ensures OnlyWithin(old(ctx.buf[..]), ctx.buf[..], ctx.base, ctx.bufSz)
  {
    hide Patch, OnlyWithin, EncodeHead, HeadSize, At;
    ghost var head, a, start := EncodeHead(MAP, count), ctx.buf[..], ctx.base;
    PatchNone(ctx.was, start);
    ret := ctx.EncodeMapStart(count);
    Nothing(head);
    ctx.Done();
    ctx.ValidIsConfined();
    PatchPuts(a, start, head);
    PatchKeeps(a, start, head, start + HeadSize(count), content);
    PatchKeeps(a, start, head, start + entryEnd, back);
  }

  /** A new entry behind head and content: what stands around it stays. */
  lemma EntryPlaced(b: seq<byte>, start: nat, head: seq<byte>, content: seq<byte>, entry: seq<byte>, back: seq<byte>,
                    end: nat)
    requires At(b, start, head) && At(b, start + |head|, content) && At(b, end, back)
    requires start + |head| + |content| + |entry| <= end <= |b|
    ensures var now := Patch(b, start + |head| + |content|, entry);
      At(now, start, head + content + entry) && At(now, end, back)
  {
    hide Patch, At;
    var k := start + |head| + |content|;
    var now := Patch(b, k, entry);
    PatchPuts(b, k, entry);
    PatchKeeps(b, k, entry, start, head);
    PatchKeeps(b, k, entry, start + |head|, content);
    PatchKeeps(b, k, entry, end, back);
    AtJoin(now, start, head, content);
    AtJoin(now, start, head + content, entry);
  }

  /** The map head written over, and the new entry behind, the content of a map that already
      stands behind its new head; `back` is what follows the map. */
  method WriteEntry(buf: array<byte>, start: nat, size: nat, count: u64, headLen: nat, contentLen: nat,
                    ghost content: seq<byte>, ghost back: seq<byte>, abbreviated: bool,
                    prot: seq<byte>, kid: seq<byte>, sig: seq<byte>, entryEnd: nat)
    returns (ret: Status)
    requires |prot| <= SIZE_MAX && |kid| <= SIZE_MAX && |sig| <= SIZE_MAX
    requires headLen == HeadSize(count) && contentLen == |content| && start + size <= buf.Length
    requires At(buf[..], start + headLen, content) && At(buf[..], start + entryEnd, back)
    requires entryEnd == headLen + contentLen + 1 + |CounterBytes(abbreviated, prot, kid, sig)|
    requires size == entryEnd + |back|
    modifies buf
    ensures ret == Success
    ensures At(buf[..], start, EncodeHead(MAP, count) + content + EncodeInt(CounterLabel(abbreviated))
                               + CounterBytes(abbreviated, prot, kid, sig))
    ensures At(buf[..], start + entryEnd, back)
    ensures OnlyWithin(old(buf[..]), buf[..], start, size)
  {
    hide Patch, OnlyWithin, Encoder.Valid, EncodeHead, CounterBytes, HeadSize, At, EncodeInt;
    LabelLength(abbreviated);
    ghost var head, lbl := EncodeHead(MAP, count), EncodeInt(CounterLabel(abbreviated));
    ghost var ctr := CounterBytes(abbreviated, prot, kid, sig);
    ghost var a := buf[..];
    var ctx := new Encoder(buf, start, size);
    ret := HeadOver(ctx, count, content, back, entryEnd);
    if ret.Success? {
      ctx.Seek(headLen + contentLen);
      ghost var b := buf[..];
      ret := EncodeEntry(ctx, abbreviated, prot, kid, sig);
      Nothing(lbl + ctr);
      ctx.Done();
      ctx.ValidIsConfined();
      ghost var k := start + headLen + contentLen;
      EntryPlaced(b, start, head, content, lbl + ctr, back, start + entryEnd);
      WithinTwice(a, b, buf[..], start, size);
      if ret.Success? && ctx.idx != entryEnd {
        ret := Fail(CborMalformed);
      }
      Behind(head + content, lbl, ctr);
    }
  }

  /** The label a countersignature is attached under. */
  function CounterLabel(abbreviated: bool): (n: i64) {
    if abbreviated then COUNTERSIGNATURE0_V2 else COUNTERSIGNATURE_V2
  }

  lemma LabelLength(abbreviated: bool)
    ensures |EncodeInt(CounterLabel(abbreviated))| == 1
  {
    LabelSize();
  }

  lemma WithinKeeps(a: seq<byte>, b: seq<byte>, at: nat, size: nat, i: nat, part: seq<byte>)
    requires OnlyWithin(a, b, at, size) && At(a, i, part) && (i + |part| <= at || at + size <= i)
    ensures At(b, i, part)
  {
    if i + |part| <= at {
      assert b[i..i + |part|] == b[..at][i..i + |part|];
      assert a[i..i + |part|] == a[..at][i..i + |part|];
    } else {
      var d := i - (at + size);
      assert b[i..i + |part|] == b[at + size..][d..d + |part|];
      assert a[i..i + |part|] == a[at + size..][d..d + |part|];
    }
  }

  // ----- The two kinds of edit -----

  /** The entries behind the value that grows are moved to where they will be. */
  method MoveRest(buf: array<byte>, o: nat, ghost s: seq<byte>, r: Range, mapEnd: nat, delta: nat, newValueEnd: nat,
                  ghost back: seq<byte>)
    requires 0 <= r.start <= r.end <= mapEnd <= |s| && newValueEnd == r.end + delta
    requires o + mapEnd + delta + |back| <= buf.Length
    requires At(buf[..], o, s[..mapEnd]) && At(buf[..], o + mapEnd + delta, back)
    modifies buf
    ensures At(buf[..], o, s[..r.start]) && At(buf[..], o + r.start, s[r.start..r.end])
    ensures At(buf[..], o + newValueEnd, s[r.end..mapEnd]) && At(buf[..], o + mapEnd + delta, back)
    ensures OnlyWithin(old(buf[..]), buf[..], o, mapEnd + delta + |back|)
  {
    hide Patch, OnlyWithin, At;
    ghost var front, v, rest := s[..r.start], s[r.start..r.end], s[r.end..mapEnd];
    ghost var a := buf[..];
    Cut(a, o, s, r, mapEnd);
    MovePart(buf, o + newValueEnd, o + r.end, rest, mapEnd - r.end, o, mapEnd + delta + |back|);
    PatchKeeps(a, o + newValueEnd, rest, o, front);
    PatchKeeps(a, o + newValueEnd, rest, o + r.start, v);
    PatchKeeps(a, o + newValueEnd, rest, o + mapEnd + delta, back);
  }

  /** The value itself: its content moved behind the new head, and the rest written. */
  method RewriteValue(buf: array<byte>, k: nat, ghost v: seq<byte>, plan: Plan,
                      prot: seq<byte>, kid: seq<byte>, sig: seq<byte>) returns (ret: Status)
    requires |prot| <= SIZE_MAX && |kid| <= SIZE_MAX && |sig| <= SIZE_MAX && |v| <= SIZE_MAX
    requires CounterListInfo(v).Ok? && CounterListInfo(v).value.count < MAX_MAP_ITEMS
    requires plan.listInfo == CounterListInfo(v).value && plan.oldValueLen == |v|
    requires plan.newValueLen == |GrownValue(v, plan.listInfo, FullCounterBytes(prot, kid, sig))|
    requires k + plan.newValueLen <= buf.Length && At(buf[..], k, v)
    modifies buf
    ensures ret == Success
    ensures At(buf[..], k, GrownValue(v, CounterListInfo(v).value, FullCounterBytes(prot, kid, sig)))
    ensures OnlyWithin(old(buf[..]), buf[..], k, plan.newValueLen)
  {
    hide Patch, OnlyWithin, EncodeHead, FullCounterBytes, HeadSize, At, CounterListInfo, GrownValue, ListBody;
    ghost var body := ListBody(v);
    GrowSizes(v, FullCounterBytes(prot, kid, sig));
    var count := if plan.listInfo.isList then plan.listInfo.count + 1 else 2;
    var contentOffset := if plan.listInfo.isList then plan.listInfo.contentOffset else 0;
    var contentLen := plan.oldValueLen - contentOffset;
    var headLen := CborHeadSize(count);
    ghost var a := buf[..];
    BodyPart(a, k, v, body, contentOffset);
    MovePart(buf, k + headLen, k + contentOffset, body, contentLen, k, plan.newValueLen);
    ghost var b := buf[..];
    ret := WriteGrown(buf, k, plan.newValueLen, count, headLen, contentLen, body, prot, kid, sig);
    WithinTwice(a, b, buf[..], k, plan.newValueLen);
  }

  /** The value at `r` grows in place: the message up to the map's end stands at `o`, and
      what follows the map already stands where it will be. */
  method GrowInPlace(buf: array<byte>, o: nat, ghost s: seq<byte>, r: Range, mapEnd: nat, plan: Plan,
                     prot: seq<byte>, kid: seq<byte>, sig: seq<byte>, ghost back: seq<byte>) returns (ret: Status)
    requires |prot| <= SIZE_MAX && |kid| <= SIZE_MAX && |sig| <= SIZE_MAX && |s| <= SIZE_MAX
    requires 0 <= r.start <= r.end <= mapEnd <= |s|
    requires var v := s[r.start..r.end];
      && CounterListInfo(v).Ok? && CounterListInfo(v).value.count < MAX_MAP_ITEMS
      && plan.listInfo == CounterListInfo(v).value && plan.oldValueLen == |v|
      && plan.newValueLen == |GrownValue(v, plan.listInfo, FullCounterBytes(prot, kid, sig))| == |v| + plan.delta
      && plan.finalLen == mapEnd + plan.delta + |back|
    requires o + plan.finalLen <= buf.Length
    requires At(buf[..], o, s[..mapEnd]) && At(buf[..], o + mapEnd + plan.delta, back)
    modifies buf
    ensures ret == Success
    ensures At(buf[..], o, s[..r.start] + GrownValue(s[r.start..r.end], CounterListInfo(s[r.start..r.end]).value,
                                                     FullCounterBytes(prot, kid, sig)) + s[r.end..mapEnd] + back)
    ensures OnlyWithin(old(buf[..]), buf[..], o, plan.finalLen)
  {
    hide Patch, OnlyWithin, EncodeHead, FullCounterBytes, HeadSize, At, CounterListInfo, GrownValue;
    ghost var v, front, rest := s[r.start..r.end], s[..r.start], s[r.end..mapEnd];
    var newValueEnd := r.start + plan.newValueLen;
    ghost var a := buf[..];
    MoveRest(buf, o, s, r, mapEnd, plan.delta, newValueEnd, back);
    var k := o + r.start;
    ghost var b := buf[..];
    ret := RewriteValue(buf, k, v, plan, prot, kid, sig);
    ghost var d := buf[..];
    WithinKeeps(b, d, k, plan.newValueLen, o, front);
    WithinKeeps(b, d, k, plan.newValueLen, o + newValueEnd, rest);
    WithinKeeps(b, d, k, plan.newValueLen, o + mapEnd + plan.delta, back);
    FourAt(d, o, front, GrownValue(v, plan.listInfo, FullCounterBytes(prot, kid, sig)), rest, back);
    WithinLarger(b, d, k, plan.newValueLen, o, plan.finalLen);
    WithinTwice(a, b, d, o, plan.finalLen);
  }

  lemma FourAt(d: seq<byte>, o: nat, p: seq<byte>, q: seq<byte>, r: seq<byte>, t: seq<byte>)
    requires At(d, o, p) && At(d, o + |p|, q) && At(d, o + |p| + |q|, r) && At(d, o + |p| + |q| + |r|, t)
    ensures At(d, o, p + q + r + t)
  {
    hide At;
    AtJoin(d, o, p, q);
    AtJoin(d, o, p + q, r);
    AtJoin(d, o, p + q + r, t);
  }

  /** A grown value: its parts and their sizes. */
  lemma GrowSizes(v: seq<byte>, ctr: seq<byte>)
    requires CounterListInfo(v).Ok? && CounterListInfo(v).value.count < MAX_MAP_ITEMS && |v| <= SIZE_MAX
    ensures var info := CounterListInfo(v).value; var count := if info.isList then info.count + 1 else 2;
      var off := if info.isList then info.contentOffset else 0;
      && count < U64_BOUND && off <= |v| && off <= HeadSize(count) && ListBody(v) == v[off..]
      && GrownValue(v, info, ctr) == EncodeHead(ARRAY, count) + ListBody(v) + ctr
      && |GrownValue(v, info, ctr)| == HeadSize(count) + (|v| - off) + |ctr|
  {
    hide CounterListInfo, EncodeHead, HeadSize;
    ValueFacts(v);
    SmallHeads();
  }

  lemma SmallHeads()
    ensures HeadSize(2) == 1
  {
  }

  /** The parts of the message up to the end of its map. */
  lemma Cut(a: seq<byte>, o: nat, s: seq<byte>, r: Range, mapEnd: nat)
    requires 0 <= r.start <= r.end <= mapEnd <= |s| && At(a, o, s[..mapEnd])
    ensures At(a, o, s[..r.start]) && At(a, o + r.start, s[r.start..r.end]) && At(a, o + r.end, s[r.end..mapEnd])
  {
    var m := s[..mapEnd];
    AtPart(a, o, m, 0, r.start);
    AtPart(a, o, m, r.start, r.end);
    AtPart(a, o, m, r.end, mapEnd);
    assert m == s[0..mapEnd];
    SubSlice(s, 0, mapEnd, 0, r.start);
    SubSlice(s, 0, mapEnd, r.start, r.end);
    SubSlice(s, 0, mapEnd, r.end, mapEnd);
    assert s[0..r.start] == s[..r.start];
  }

  lemma BodyPart(b: seq<byte>, k: nat, v: seq<byte>, body: seq<byte>, off: nat)
    requires At(b, k, v) && off <= |v| && body == v[off..]
    ensures At(b, k + off, body)
  {
    AtPart(b, k, v, off, |v|);
    assert v[off..|v|] == v[off..];
  }

  /** The content of the map is moved behind its new head. */
  method MoveContent(buf: array<byte>, o: nat, ghost s: seq<byte>, mapStart: nat, contentStart: nat, mapEnd: nat,
                     delta: nat, newContentStart: nat, ghost back: seq<byte>)
    requires mapStart <= contentStart <= mapEnd <= |s| && contentStart <= newContentStart <= contentStart + delta
    requires o + mapEnd + delta + |back| <= buf.Length
    requires At(buf[..], o, s[..mapEnd]) && At(buf[..], o + mapEnd + delta, back)
    modifies buf
    ensures At(buf[..], o, s[..mapStart]) && At(buf[..], o + newContentStart, s[contentStart..mapEnd])
    ensures At(buf[..], o + mapEnd + delta, back)
    ensures OnlyWithin(old(buf[..]), buf[..], o, mapEnd + delta + |back|)
  {
    hide Patch, OnlyWithin, At;
    ghost var front, content := s[..mapStart], s[contentStart..mapEnd];
    ghost var a := buf[..];
    Cut(a, o, s, Range(contentStart, mapEnd), mapEnd);
    Cut(a, o, s, Range(mapStart, mapEnd), mapEnd);
    MovePart(buf, o + newContentStart, o + contentStart, content, mapEnd - contentStart, o, mapEnd + delta + |back|);
    PatchKeeps(a, o + newContentStart, content, o, front);
    PatchKeeps(a, o + newContentStart, content, o + mapEnd + delta, back);
  }

  /** The map gets one more entry in place: the message up to the map's end stands at `o`,
      and what follows the map already stands where it will be. */
  method AppendInPlace(buf: array<byte>, o: nat, ghost s: seq<byte>, mapStart: nat, contentStart: nat, mapEnd: nat,
                       plan: Plan, abbreviated: bool, prot: seq<byte>, kid: seq<byte>, sig: seq<byte>,
                       ghost back: seq<byte>) returns (ret: Status)
    requires |prot| <= SIZE_MAX && |kid| <= SIZE_MAX && |sig| <= SIZE_MAX
    requires mapStart <= contentStart <= mapEnd <= |s|
    requires plan.newMapCount < U64_BOUND && plan.newMapHeadLen == HeadSize(plan.newMapCount)
    requires contentStart - mapStart <= plan.newMapHeadLen
    requires plan.delta == (plan.newMapHeadLen - (contentStart - mapStart)) + 1
                           + |CounterBytes(abbreviated, prot, kid, sig)|
    requires plan.finalLen == mapEnd + plan.delta + |back| && o + plan.finalLen <= buf.Length
    requires At(buf[..], o, s[..mapEnd]) && At(buf[..], o + mapEnd + plan.delta, back)
    modifies buf
    ensures ret == Success
    ensures At(buf[..], o, s[..mapStart] + (EncodeHead(MAP, plan.newMapCount) + s[contentStart..mapEnd]
                                            + EncodeInt(CounterLabel(abbreviated))
                                            + CounterBytes(abbreviated, prot, kid, sig)) + back)
    ensures OnlyWithin(old(buf[..]), buf[..], o, plan.finalLen)
  {
    hide Patch, OnlyWithin, EncodeHead, CounterBytes, HeadSize, At, EncodeInt;
    ghost var front, content := s[..mapStart], s[contentStart..mapEnd];
    var contentLen := mapEnd - contentStart;
    var newContentStart := mapStart + plan.newMapHeadLen;
    ghost var a := buf[..];
    MoveContent(buf, o, s, mapStart, contentStart, mapEnd, plan.delta, newContentStart, back);
    ghost var b := buf[..];
    var k := o + mapStart;
    ret := WriteEntry(buf, k, plan.finalLen - mapStart, plan.newMapCount, plan.newMapHeadLen, contentLen, content, back,
                      abbreviated, prot, kid, sig, mapEnd + plan.delta - mapStart);
    ghost var d := buf[..];
    WithinKeeps(b, d, k, plan.finalLen - mapStart, o, front);
    ghost var g := EncodeHead(MAP, plan.newMapCount) + content + EncodeInt(CounterLabel(abbreviated))
                   + CounterBytes(abbreviated, prot, kid, sig);
    EntrySize(plan.newMapCount, content, abbreviated, CounterBytes(abbreviated, prot, kid, sig));
    AtJoin(d, o, front, g);
    AtJoin(d, o, front + g, back);
    WithinLarger(b, d, k, plan.finalLen - mapStart, o, plan.finalLen);
    WithinTwice(a, b, d, o, plan.finalLen);
  }

  lemma EntrySize(count: u64, content: seq<byte>, abbreviated: bool, ctr: seq<byte>)
    ensures |EncodeHead(MAP, count) + content + EncodeInt(CounterLabel(abbreviated)) + ctr|
         == HeadSize(count) + |content| + 1 + |ctr|
  {
    hide EncodeHead, EncodeInt, HeadSize;
    LabelLength(abbreviated);
  }

  // ----- The whole edit -----

  /** The attached message, as the parts that the edit leaves behind. */
  lemma AttachedParts(s: seq<byte>, t: Target, abbreviated: bool, counter: seq<byte>)
    requires t.mapStart <= t.mapContentStart <= t.mapEnd <= |s| && t.mapCount + 1 < U64_BOUND
    requires Replaces(t, abbreviated) ==> Growable(s, t.full.value) && t.full.value.end <= t.mapEnd
    ensures Replaces(t, abbreviated) ==>
      var r := t.full.value; var v := s[r.start..r.end];
      Attached(s, t, abbreviated, counter)
      == s[..r.start] + GrownValue(v, CounterListInfo(v).value, counter) + s[r.end..t.mapEnd] + s[t.mapEnd..]
    ensures !Replaces(t, abbreviated) ==>
      Attached(s, t, abbreviated, counter)
      == s[..t.mapStart] + (EncodeHead(MAP, t.mapCount + 1) + s[t.mapContentStart..t.mapEnd]
                            + EncodeInt(CounterLabel(abbreviated)) + counter) + s[t.mapEnd..]
  {
    hide CounterListInfo, GrownValue, EncodeHead, EncodeInt;
    if Replaces(t, abbreviated) {
      var r := t.full.value;
      var v := s[r.start..r.end];
      assert s[r.end..] == s[r.end..t.mapEnd] + s[t.mapEnd..];
      assert s[..r.start] + GrownValue(v, CounterListInfo(v).value, counter) + s[r.end..]
          == s[..r.start] + GrownValue(v, CounterListInfo(v).value, counter) + s[r.end..t.mapEnd] + s[t.mapEnd..];
    } else {
      var head, content, l := EncodeHead(MAP, t.mapCount + 1), s[t.mapContentStart..t.mapEnd],
                              EncodeInt(CounterLabel(abbreviated));
      assert s[..t.mapStart] + head + content + l + counter + s[t.mapEnd..]
          == s[..t.mapStart] + (head + content + l + counter) + s[t.mapEnd..];
    }
  }

  /** The edit of a message that already stands in the output buffer, `o` bytes into `buf`. */
  method AttachInside(buf: array<byte>, o: nat, ghost s: seq<byte>, ghost detached: Option<seq<byte>>, t: Target, plan: Plan,
                      suffixLen: nat, prot: seq<byte>, kid: seq<byte>, sig: seq<byte>, abbreviated: bool)
    returns (ret: Status)
    requires |prot| <= SIZE_MAX && |kid| <= SIZE_MAX && |sig| <= SIZE_MAX && |s| <= SIZE_MAX
    requires ParseTarget(s, detached).Ok? && ParseTarget(s, detached).value == t && suffixLen == |s| - t.mapEnd
    requires Replaces(t, abbreviated) ==> Growable(s, t.full.value)
    requires PlanFor(plan, s, t, abbreviated, |CounterBytes(abbreviated, prot, kid, sig)|)
    requires o + plan.finalLen <= buf.Length && At(buf[..], o, s)
    modifies buf
    ensures ret == Success
    ensures At(buf[..], o, Attached(s, t, abbreviated, CounterBytes(abbreviated, prot, kid, sig)))
    ensures OnlyWithin(old(buf[..]), buf[..], o, plan.finalLen)
  {
    hide Patch, OnlyWithin, EncodeHead, FullCounterBytes, EncodeBstr, HeadSize, At, CounterListInfo, GrownValue,
         ParseTarget, Attached, GrownLen, AttachedLen, EncodeInt, Growable;
    ghost var back, counter := s[t.mapEnd..], CounterBytes(abbreviated, prot, kid, sig);
    PlanRoom(s, detached, t, abbreviated, counter, plan);
    AttachedParts(s, t, abbreviated, counter);
    ghost var a := buf[..];
    MoveSuffix(buf, o, s, t.mapEnd, plan.delta, suffixLen, plan.finalLen);
    ghost var b := buf[..];
    if plan.replacesValue {
      ret := GrowInPlace(buf, o, s, t.full.value, t.mapEnd, plan, prot, kid, sig, back);
    } else {
      ret := AppendInPlace(buf, o, s, t.mapStart, t.mapContentStart, t.mapEnd, plan, abbreviated, prot, kid, sig, back);
    }
    WithinTwice(a, b, buf[..], o, plan.finalLen);
  }

  /** `wolfCose_AttachCounter`: in place, or into another buffer. */
  method AttachCounter(t: Target, plan: Plan, input: Span, ghost detached: Option<seq<byte>>, prot: seq<byte>,
                       kid: seq<byte>, sig: seq<byte>, abbreviated: bool, out: Span)
    returns (ret: Status, outLen: nat)
    requires input.Valid() && out.Valid()
    requires |prot| <= SIZE_MAX && |kid| <= SIZE_MAX && |sig| <= SIZE_MAX && input.len <= SIZE_MAX
    requires ParseTarget(input.Bytes(), detached).Ok? && ParseTarget(input.Bytes(), detached).value == t
    requires Replaces(t, abbreviated) ==> Growable(input.Bytes(), t.full.value)
    requires PlanFor(plan, input.Bytes(), t, abbreviated, |CounterBytes(abbreviated, prot, kid, sig)|)
    requires plan.finalLen <= out.len
    modifies out.mem
    ensures ret == Success && outLen == plan.finalLen <= out.len
    ensures out.Bytes()[..outLen]
         == Attached(old(input.Bytes()), t, abbreviated, CounterBytes(abbreviated, prot, kid, sig))
    ensures OnlyWithin(old(out.mem[..]), out.mem[..], out.off, outLen)
  {
    hide OnlyWithin, CounterBytes, At, ParseTarget, Attached, Growable, PlanFor;
    var data := input.Bytes();
    ghost var counter := CounterBytes(abbreviated, prot, kid, sig);
    ghost var a := out.mem[..];
    PlanRoom(data, detached, t, abbreviated, counter, plan);
    CopyIn(input, data, out, plan.finalLen);
    ghost var b := out.mem[..];
    ret := AttachInside(out.mem, out.off, data, detached, t, plan, input.len - t.mapEnd, prot, kid, sig, abbreviated);
    outLen := plan.finalLen;
    WithinTwice(a, b, out.mem[..], out.off, plan.finalLen);
    AtIs(out.mem[..], out.off, Attached(data, t, abbreviated, counter));
    assert out.Bytes()[..outLen] == out.mem[..][out.off..out.off + outLen];
  }

  lemma AtIs(a: seq<byte>, k: nat, part: seq<byte>)
    requires At(a, k, part)
    ensures k + |part| <= |a| && a[k..k + |part|] == part
  {
  }

  /** The message is in the output buffer: moved there unless it already is. */
  method CopyIn(input: Span, data: seq<byte>, out: Span, ghost n: nat)
    requires input.Valid() && out.Valid() && data == input.Bytes() && |data| <= n <= out.len
    modifies out.mem
    ensures At(out.mem[..], out.off, data)
    ensures OnlyWithin(old(out.mem[..]), out.mem[..], out.off, n)
  {
    hide Patch, OnlyWithin;
    if !input.SameStart(out) {
      Write(out.mem, out.off, data);
      PatchPuts(old(out.mem[..]), out.off, data);
      PatchWithin(old(out.mem[..]), out.off, n, out.off, data);
    } else {
      assert out.mem[..][out.off..out.off + |data|] == input.mem[input.off..input.off + input.len];
      WithinSelf(out.mem[..], out.off, n);
    }
  }

  /** What follows the map is moved to where it will be. */
  method MoveSuffix(buf: array<byte>, o: nat, ghost s: seq<byte>, mapEnd: nat, delta: nat, suffixLen: nat, ghost n: nat)
    requires mapEnd <= |s| && suffixLen == |s| - mapEnd && At(buf[..], o, s) && n == |s| + delta && o + n <= buf.Length
    modifies buf
    ensures At(buf[..], o, s[..mapEnd]) && At(buf[..], o + mapEnd + delta, s[mapEnd..])
    ensures OnlyWithin(old(buf[..]), buf[..], o, n)
  {
    hide Patch, OnlyWithin, At;
    ghost var a := buf[..];
    AtPart(a, o, s, 0, mapEnd);
    AtPart(a, o, s, mapEnd, |s|);
    WholeParts(s, mapEnd);
    MovePart(buf, o + mapEnd + delta, o + mapEnd, s[mapEnd..], suffixLen, o, n);
    PatchKeeps(a, o + mapEnd + delta, s[mapEnd..], o, s[..mapEnd]);
  }

  lemma WholeParts(s: seq<byte>, i: nat)
    requires i <= |s|
    ensures s[0..i] == s[..i] && s[i..|s|] == s[i..]
  {
  }

  /** What a plan that fits says about the edit. */
  lemma PlanRoom(s: seq<byte>, detached: Option<seq<byte>>, t: Target, abbreviated: bool, counter: seq<byte>, plan: Plan)
    requires |s| <= SIZE_MAX && ParseTarget(s, detached).Ok? && ParseTarget(s, detached).value == t
    requires Replaces(t, abbreviated) ==> Growable(s, t.full.value)
    requires PlanFor(plan, s, t, abbreviated, |counter|)
    ensures t.mapCount + 1 < U64_BOUND && t.mapEnd <= |s| && plan.finalLen == |s| + plan.delta
    ensures t.mapStart <= t.mapContentStart <= t.mapEnd
    ensures |Attached(s, t, abbreviated, counter)| == plan.finalLen
    ensures !Replaces(t, abbreviated) ==> t.mapContentStart - t.mapStart <= plan.newMapHeadLen
    ensures Replaces(t, abbreviated) ==>
      var r := t.full.value;
      && 0 <= r.start <= r.end <= t.mapEnd
      && CounterListInfo(s[r.start..r.end]).Ok? && CounterListInfo(s[r.start..r.end]).value.count < MAX_MAP_ITEMS
      && plan.listInfo == CounterListInfo(s[r.start..r.end]).value && plan.oldValueLen == r.end - r.start
      && plan.newValueLen == |GrownValue(s[r.start..r.end], plan.listInfo, counter)| == r.end - r.start + plan.delta
  {
    hide CounterListInfo, ParseTarget, GrownValue, GrownLen, AttachedLen, HeadSize, Attached;
    MapPlace(s, detached);
    HeadGrows(t.mapCount);
    AttachedLenIs(s, t, abbreviated, counter);
    if Replaces(t, abbreviated) {
      var k := FullEntry(s, detached);
      FullValueIs(s, t.full.value);
      GrownLenIs(FullValue(s, t.full.value), counter);
    }
  }
}
