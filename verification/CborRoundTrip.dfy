/**
 The encoder and the decoder are inverse to each other, strict decoding accepts
 exactly what the encoder writes, and decoding looks only at the bytes it consumes.
 */
module CborRoundTrip {
  import opened Wire
  import opened Utf8
  import opened Cbor
  import opened CborGrammar

  /** What `wc_CBOR_EncodeInt` writes. */
  function EncodeInt(n: i64): (b: seq<byte>)
    ensures 1 <= |b| <= 9
  {
    if n >= 0 then EncodeHead(UINT, n) else EncodeHead(NEGINT, -(n + 1))
  }

  /** What the shared string encoder writes for major types 2 and 3. */
  function EncodeString(major: Major, data: seq<byte>): (b: seq<byte>)
    requires |data| <= SIZE_MAX
    ensures |b| == HeadSize(|data|) + |data|
  {
    EncodeHead(major, |data|) + data
  }

  function EncodeBstr(data: seq<byte>): (b: seq<byte>)
    requires |data| <= SIZE_MAX
    ensures |b| == HeadSize(|data|) + |data|
  {
    EncodeString(BSTR, data)
  }

  function EncodeTstr(data: seq<byte>): (b: seq<byte>)
    requires |data| <= SIZE_MAX
    ensures |b| == HeadSize(|data|) + |data|
  {
    EncodeString(TSTR, data)
  }

  /** A written head is read back with its argument, in both modes. */
  lemma HeadRoundTrip(major: Major, val: u64, tol: bool, s: seq<byte>, i: nat)
    requires major != BSTR && major != TSTR && major != SIMPLE
    requires SameSlice(EncodeHead(major, val), 0, s, i, HeadSize(val))
    ensures DecodeHead(s, i, tol) == Ok(Item(major, val, []), i + HeadSize(val))
  {
    EncodedIsPreferred(major, val);
    DecodeHeadBytes(major, PreferredInfo(val), val, tol, s, i);
  }

  lemma IntRoundTrip(n: i64, tol: bool, s: seq<byte>, i: nat)
    requires SameSlice(EncodeInt(n), 0, s, i, |EncodeInt(n)|)
    ensures DecodeInt(s, i, tol) == Ok(n, i + |EncodeInt(n)|)
    ensures DecodeLabel(s, i, tol) == Ok(IntLabel(n), i + |EncodeInt(n)|)
    ensures n >= 0 ==> DecodeUint(s, i, tol) == Ok(n, i + |EncodeInt(n)|)
  {
    if n >= 0 {
      HeadRoundTrip(UINT, n, tol, s, i);
    } else {
      HeadRoundTrip(NEGINT, -(n + 1), tol, s, i);
    }
  }

  lemma StringRoundTrip(major: Major, data: seq<byte>, tol: bool, s: seq<byte>, i: nat)
    requires major == BSTR || (major == TSTR && IsUtf8(data))
    requires |data| <= SIZE_MAX
    requires SameSlice(EncodeString(major, data), 0, s, i, |EncodeString(major, data)|)
    ensures DecodeHead(s, i, tol) == Ok(Item(major, |data|, data), i + |EncodeString(major, data)|)
    ensures DecodeString(s, i, major, tol) == Ok(data, i + |EncodeString(major, data)|)
  {
    var h, b := EncodeHead(major, |data|), EncodeString(major, data);
    SameSlicePart(b, 0, s, i, |b|, 0, |h|);
    assert b[0..|h|] == h[0..|h|];
    SameSlicePart(b, 0, s, i, |b|, |h|, |data|);
    assert b[|h|..|h| + |data|] == data;
    StringHead(major, data, tol, s, i);
  }

  lemma StringHead(major: Major, data: seq<byte>, tol: bool, s: seq<byte>, i: nat)
    requires major == BSTR || (major == TSTR && IsUtf8(data))
    requires |data| <= SIZE_MAX
    requires var h := EncodeHead(major, |data|);
      SameSlice(h, 0, s, i, |h|) && i + |h| + |data| <= |s| && s[i + |h|..i + |h| + |data|] == data
    ensures DecodeHead(s, i, tol)
         == Ok(Item(major, |data|, data), i + HeadSize(|data|) + |data|)
  {
    EncodedIsPreferred(major, |data|);
    DecodeHeadBytes(major, PreferredInfo(|data|), |data|, tol, s, i);
  }

  /** Strictly accepted bytes are the ones the encoder would have written. */
  lemma StrictIsCanonical(s: seq<byte>, i: nat)
    requires DecodeHead(s, i, false).Ok? && DecodeHead(s, i, false).value.major != SIMPLE
    ensures var it, e := DecodeHead(s, i, false).value, DecodeHead(s, i, false).next;
      s[i..e] == EncodeHead(it.major, it.val) + it.data
  {
    var it := DecodeHead(s, i, false).value;
    var h := HeadBytesPart(s, i, false);
    PreferredIsEncoded(it.major, s[i] % 32, it.val);
  }

  /** A byte string that was read strictly stands there as it would be written. */
  lemma BstrStands(s: seq<byte>, i: nat)
    requires DecodeBstr(s, i, false).Ok?
    ensures var d, e := DecodeBstr(s, i, false).value, DecodeBstr(s, i, false).next;
      |d| <= SIZE_MAX && i < e <= |s| && s[i..e] == EncodeBstr(d)
  {
    hide EncodeHead;
    StrictIsCanonical(s, i);
    HeadBytesOfDecoded(s, i, false);
  }

  /** So does the head of an array or a map. */
  lemma ContainerStands(s: seq<byte>, i: nat, major: Major)
    requires (major == ARRAY || major == MAP) && DecodeContainer(s, i, major, false).Ok?
    ensures var n, e := DecodeContainer(s, i, major, false).value, DecodeContainer(s, i, major, false).next;
      n < U64_BOUND && i < e <= |s| && s[i..e] == EncodeHead(major, n)
  {
    hide EncodeHead;
    StrictIsCanonical(s, i);
    HeadBytesOfDecoded(s, i, false);
  }

  /** And a tag. */
  lemma TagStands(s: seq<byte>, i: nat)
    requires DecodeTag(s, i, false).Ok?
    ensures var t, e := DecodeTag(s, i, false).value, DecodeTag(s, i, false).next;
      i < e <= |s| && s[i..e] == EncodeHead(TAG, t)
  {
    hide EncodeHead;
    StrictIsCanonical(s, i);
    HeadBytesOfDecoded(s, i, false);
  }

  /** Strict mode accepts what tolerant mode does, cut down to shortest heads. */
  lemma StrictIffTolerantAndPreferred(s: seq<byte>, i: nat)
    requires i < |s|
    ensures DecodeHead(s, i, false).Ok?
       <==> DecodeHead(s, i, true).Ok?
            && (s[i] / 32 != SIMPLE ==> s[i] % 32 == PreferredInfo(DecodeHead(s, i, true).value.val))
    ensures DecodeHead(s, i, false).Ok? ==> DecodeHead(s, i, true) == DecodeHead(s, i, false)
  {
    if DecodeHead(s, i, true).Ok? && s[i] / 32 != SIMPLE {
      var it := DecodeHead(s, i, true).value;
      HeadBytesOfDecoded(s, i, true);
      EncodedIsPreferred(it.major, it.val);
      if DecodeHead(s, i, false).Ok? {
        HeadBytesOfDecoded(s, i, false);
        PreferredIsEncoded(it.major, s[i] % 32, it.val);
      }
    }
  }

  lemma {:induction false} WfStrictIsTolerant(ts: seq<Tree>)
    requires WfAll(ts, false)
    ensures WfAll(ts, true)
    decreases ts
  {
    if ts != [] {
      WfFirst(ts, false);
      if ts[0].Node? {
        WfStrictIsTolerant(ts[0].kids);
      }
      WfStrictIsTolerant(ts[1..]);
    }
  }

  /** Tolerant skipping agrees with strict skipping wherever strict skipping succeeds. */
  lemma SkipStrictIsTolerant(s: seq<byte>, i: nat, n: nat, d: nat)
    requires i <= |s| <= SIZE_MAX && SkipItems(s, i, n, d, false).Ok?
    ensures SkipItems(s, i, n, d, true) == SkipItems(s, i, n, d, false)
  {
    var ts := SkipSound(s, i, n, d, false);
    WfStrictIsTolerant(ts);
    SkipComplete(s, i, ts, d, true, SkipItems(s, i, n, d, false).next);
  }

  /** An item skipped within one depth is skipped, to the same end, within any larger one. */
  lemma SkipDeeper(s: seq<byte>, i: nat, n: nat, d: nat, d': nat, tol: bool)
    requires i <= |s| <= SIZE_MAX && d <= d' && SkipItems(s, i, n, d, tol).Ok?
    ensures SkipItems(s, i, n, d', tol) == SkipItems(s, i, n, d, tol)
  {
    var ts := SkipSound(s, i, n, d, tol);
    SkipComplete(s, i, ts, d', tol, SkipItems(s, i, n, d, tol).next);
  }

  // ----- Framing -----

  /** Decoding a head looks only at the bytes it consumes. */
  lemma HeadFraming(s: seq<byte>, i: nat, tol: bool, t: seq<byte>, j: nat)
    requires DecodeHead(s, i, tol).Ok?
    requires SameSlice(s, i, t, j, DecodeHead(s, i, tol).next - i)
    ensures DecodeHead(t, j, tol)
         == Ok(DecodeHead(s, i, tol).value, j + (DecodeHead(s, i, tol).next - i))
  {
    hide DecodeHead, HeadBytes, HeadOk, HeadArgument, ArgWidth, IsUtf8, SameSlice;
    var it, e := DecodeHead(s, i, tol).value, DecodeHead(s, i, tol).next;
    HeadBytesOfDecoded(s, i, tol);
    TextOfHead(s, i, tol);
    var ai := s[i] % 32;
    var w := 1 + ArgWidth(ai);
    SameSlicePart(s, i, t, j, e - i, 0, w);
    SliceStands(s, i, HeadBytes(it.major, ai, it.val), t, j);
    DecodeHeadBytes(it.major, ai, it.val, tol, t, j);
    SameSlicePart(s, i, t, j, e - i, w, |it.data|);
    SliceIs(s, i + w, t, j + w, it.data);
    HeadFromParts(it, ai, tol, t, j);
  }

  lemma SliceStands(s: seq<byte>, i: nat, h: seq<byte>, t: seq<byte>, j: nat)
    requires SameSlice(s, i, t, j, |h|) && s[i..i + |h|] == h
    ensures SameSlice(h, 0, t, j, |h|)
  {
    assert h[0..|h|] == h;
  }

  lemma SliceIs(s: seq<byte>, i: nat, t: seq<byte>, j: nat, b: seq<byte>)
    requires SameSlice(s, i, t, j, |b|) && s[i..i + |b|] == b
    ensures j + |b| <= |t| && t[j..j + |b|] == b
  {
  }

  lemma TextOfHead(s: seq<byte>, i: nat, tol: bool)
    requires DecodeHead(s, i, tol).Ok?
    ensures var it := DecodeHead(s, i, tol).value; it.major == TSTR ==> IsUtf8(it.data)
  {
  }

  lemma HeadFromParts(it: Item, ai: Info, tol: bool, t: seq<byte>, j: nat)
    requires HeadOk(it.major, ai, it.val, tol) && j + 1 + ArgWidth(ai) + |it.data| <= |t|
    requires t[j] / 32 == it.major && t[j] % 32 == ai && HeadArgument(t, j) == it.val
    requires t[j + 1 + ArgWidth(ai)..j + 1 + ArgWidth(ai) + |it.data|] == it.data
    requires it.major == BSTR || it.major == TSTR ==> |it.data| == it.val
    requires it.major != BSTR && it.major != TSTR ==> it.data == []
    requires it.major == TSTR ==> IsUtf8(it.data)
    ensures DecodeHead(t, j, tol) == Ok(it, j + 1 + ArgWidth(ai) + |it.data|)
  {
  }

  lemma LabelFraming(s: seq<byte>, i: nat, tol: bool, t: seq<byte>, j: nat)
    requires DecodeLabel(s, i, tol).Ok?
    requires SameSlice(s, i, t, j, DecodeLabel(s, i, tol).next - i)
    ensures DecodeLabel(t, j, tol)
         == Ok(DecodeLabel(s, i, tol).value, j + (DecodeLabel(s, i, tol).next - i))
  {
    HeadFraming(s, i, tol, t, j);
  }

  /** One item decoded by its head alone is one item skipped. */
  lemma SkipOfHead(s: seq<byte>, i: nat, d: nat, tol: bool)
    requires DecodeHead(s, i, tol).Ok?
    requires var it := DecodeHead(s, i, tol).value;
      it.major != TAG && (it.major == ARRAY || it.major == MAP ==> it.val == 0)
    ensures SkipItems(s, i, 1, d, tol) == Ok((), DecodeHead(s, i, tol).next)
  {
  }
}
