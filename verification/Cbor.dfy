/**
 The CBOR codec as functions of a byte string and an index: preferred-form heads
 (sections 3 and 4.2.1 of RFC 8949), typed decoders, and skipping a whole item.
 The contexts of CborContext.dfy are proved against these functions.
 */
module Cbor {
  import opened Wire
  import opened Utf8

  /** The build-time limits: the library refuses to build with less than four, and each is
      the size of an array of machine words. */
  type Limit = n: nat | 4 <= n <= SIZE_MAX / 8 witness 8
  const CBOR_MAX_DEPTH: Limit
  const MAX_MAP_ITEMS: Limit

  const UINT := 0
  const NEGINT := 1
  const BSTR := 2
  const TSTR := 3
  const ARRAY := 4
  const MAP := 5
  const TAG := 6
  const SIMPLE := 7

  const NULL_BYTE: byte := 0xF6

  type Major = m: int | 0 <= m < 8

  /** A decoded head, with the content of a byte or text string. */
  datatype Item = Item(major: Major, val: u64, data: seq<byte>)

  // ----- Heads -----

  /** The additional information of a definite head. */
  type Info = ai: int | 0 <= ai <= 27

  /** The number of argument bytes that additional information `ai` announces. */
  function ArgWidth(ai: Info): (w: nat) {
    if ai <= 23 then 0 else if ai == 24 then 1 else if ai == 25 then 2 else if ai == 26 then 4 else 8
  }

  /** Whether `ai` is the shortest form that holds `val`. */
  predicate Preferred(ai: Info, val: nat) {
    && !(ai == 24 && val < 24)
    && !(ai == 25 && val < 256)
    && !(ai == 26 && val < 0x1_0000)
    && !(ai == 27 && val < 0x1_0000_0000)
  }

  function PreferredInfo(val: u64): (ai: Info) {
    if val <= 23 then val else if val <= 0xFF then 24 else if val <= 0xFFFF then 25
    else if val <= 0xFFFF_FFFF then 26 else 27
  }

  /** A head written with additional information `ai`. */
  function HeadBytes(major: Major, ai: Info, val: u64): (b: seq<byte>)
    ensures |b| == 1 + ArgWidth(ai)
  {
    [major * 32 + ai] + ToBE(val, ArgWidth(ai))
  }

  /** The head the encoder writes. */
  function EncodeHead(major: Major, val: u64): (b: seq<byte>)
    ensures |b| == HeadSize(val)
  {
    HeadBytes(major, PreferredInfo(val), val)
  }

  function HeadSize(val: u64): (n: nat)
    ensures 1 <= n <= 9
  {
    if val <= 23 then 1 else if val <= 0xFF then 2 else if val <= 0xFFFF then 3
    else if val <= 0xFFFF_FFFF then 5 else 9
  }

  /** Heads the decoder accepts: the argument fits its form, a two-byte simple
      value is at least 32, and strict decoding wants the shortest form. */
  predicate HeadOk(major: Major, ai: Info, val: u64, tol: bool) {
    && (ai <= 23 ==> val == ai)
    && (ai > 23 ==> val < Pow256(ArgWidth(ai)))
    && (major == SIMPLE && ai == 24 ==> val >= 32)
    && (!tol && major != SIMPLE ==> Preferred(ai, val))
  }

  /** `tol` is the variation-tolerant mode of the PSA/EAT profile. */
  function DecodeHead(s: seq<byte>, i: nat, tol: bool): (r: Dec<Item>)
    ensures r.Ok? ==> i < r.next <= |s|
    ensures r.Ok? && r.value.major != BSTR && r.value.major != TSTR ==> r.value.data == []
    ensures r.Ok? && r.value.major in {BSTR, TSTR} ==> |r.value.data| == r.value.val
  {
    if i >= |s| then Err(CborMalformed)
    else
      var major, ai := s[i] / 32, s[i] % 32;
      if ai == 31 then Err(Unsupported)
      else if ai > 27 then Err(CborMalformed)
      else
        var j := i + 1 + ArgWidth(ai);
        if j > |s| then Err(CborMalformed)
        else
          var val := HeadArgument(s, i);
          if major == SIMPLE && ai == 24 && val < 32 then Err(CborMalformed)
          else if !tol && major != SIMPLE && !Preferred(ai, val) then Err(CborMalformed)
          else if major == BSTR || major == TSTR then
            if val > |s| - j then Err(CborMalformed)
            else if major == TSTR && !IsUtf8(s[j..j + val]) then Err(CborMalformed)
            else Ok(Item(major, val, s[j..j + val]), j + val)
          else Ok(Item(major, val, []), j)
  }

  /** The argument of the head at `i`. */
  function HeadArgument(s: seq<byte>, i: nat): (val: u64)
    requires i < |s| && s[i] % 32 <= 27 && i + 1 + ArgWidth(s[i] % 32) <= |s|
  {
    var ai := s[i] % 32;
    Pow256Values();
    if ai <= 23 then ai else FromBE(s[i + 1..i + 1 + ArgWidth(ai)])
  }

  /** A head that is well formed decodes to its parts, wherever it stands. */
  lemma DecodeHeadBytes(major: Major, ai: Info, val: u64, tol: bool, s: seq<byte>, i: nat)
    requires HeadOk(major, ai, val, tol)
    requires SameSlice(HeadBytes(major, ai, val), 0, s, i, 1 + ArgWidth(ai))
    ensures s[i] / 32 == major && s[i] % 32 == ai
    ensures HeadArgument(s, i) == val
  {
    var h := HeadBytes(major, ai, val);
    var w := ArgWidth(ai);
    SameSliceAt(h, 0, s, i, 1 + w, 0);
    assert s[i] == major * 32 + ai;
    SameSlicePart(h, 0, s, i, 1 + w, 1, w);
    assert h[1..1 + w] == ToBE(val, w);
    if ai > 23 {
      FromToBE(val, w);
    }
  }

  /** The head bytes at `i` are their parts written back. */
  lemma HeadBytesBack(s: seq<byte>, i: nat)
    requires i < |s| && s[i] % 32 <= 27 && i + 1 + ArgWidth(s[i] % 32) <= |s|
    ensures var ai := s[i] % 32;
      && s[i..i + 1 + ArgWidth(ai)] == HeadBytes(s[i] / 32, ai, HeadArgument(s, i))
      && (ai <= 23 ==> HeadArgument(s, i) == ai)
      && (ai > 23 ==> HeadArgument(s, i) < Pow256(ArgWidth(ai)))
  {
    var ai := s[i] % 32;
    var w := ArgWidth(ai);
    Pow256Values();
    SliceCons(s, i, i + 1 + w);
    if ai > 23 {
      ToFromBE(s[i + 1..i + 1 + w]);
    } else {
      assert s[i + 1..i + 1 + w] == [];
    }
  }

  /** The bytes of an accepted head are its parts written back. */
  lemma HeadBytesOfDecoded(s: seq<byte>, i: nat, tol: bool)
    requires DecodeHead(s, i, tol).Ok?
    ensures s[i] % 32 <= 27 && i + 1 + ArgWidth(s[i] % 32) <= |s|
    ensures var it, ai := DecodeHead(s, i, tol).value, s[i] % 32;
      && HeadOk(it.major, ai, it.val, tol)
      && it.major == s[i] / 32 && it.val == HeadArgument(s, i)
      && s[i..i + 1 + ArgWidth(ai)] == HeadBytes(it.major, ai, it.val)
      && DecodeHead(s, i, tol).next == i + 1 + ArgWidth(ai) + |it.data|
      && s[i + 1 + ArgWidth(ai)..DecodeHead(s, i, tol).next] == it.data
  {
    hide ToBE, FromBE, HeadBytes, HeadArgument, IsUtf8;
    HeadBytesBack(s, i);
    var j := i + 1 + ArgWidth(s[i] % 32);
    assert s[j..j] == [];
  }

  /** The shortest form is the one the encoder picks, and it is unique. */
  lemma PreferredIsEncoded(major: Major, ai: Info, val: u64)
    requires HeadOk(major, ai, val, false) && major != SIMPLE
    ensures ai == PreferredInfo(val)
  {
    Pow256Values();
  }

  lemma EncodedIsPreferred(major: Major, val: u64)
    requires major != SIMPLE
    ensures HeadOk(major, PreferredInfo(val), val, false)
  {
    Pow256Values();
  }

  // ----- Typed decoders -----

  function DecodeUint(s: seq<byte>, i: nat, tol: bool): (r: Dec<u64>)
    ensures r.Ok? ==> i < r.next <= |s|
  {
    var (it, j) :- DecodeHead(s, i, tol);
    if it.major != UINT then Err(CborType) else Ok(it.val, j)
  }

  function DecodeInt(s: seq<byte>, i: nat, tol: bool): (r: Dec<i64>)
    ensures r.Ok? ==> i < r.next <= |s|
  {
    var (it, j) :- DecodeHead(s, i, tol);
    if it.major == UINT then
      if it.val > INT64_MAX then Err(CborOverflow) else Ok(it.val, j)
    else if it.major == NEGINT then
      if it.val > INT64_MAX then Err(CborOverflow) else Ok(-1 - it.val, j)
    else Err(CborType)
  }

  function DecodeString(s: seq<byte>, i: nat, major: Major, tol: bool): (r: Dec<seq<byte>>)
    requires major == BSTR || major == TSTR
    ensures r.Ok? ==> i < r.next <= |s|
  {
    var (it, j) :- DecodeHead(s, i, tol);
    if it.major != major then Err(CborType) else Ok(it.data, j)
  }

  function DecodeBstr(s: seq<byte>, i: nat, tol: bool): (r: Dec<seq<byte>>)
    ensures r.Ok? ==> i < r.next <= |s|
  {
    DecodeString(s, i, BSTR, tol)
  }

  function DecodeTstr(s: seq<byte>, i: nat, tol: bool): (r: Dec<seq<byte>>)
    ensures r.Ok? ==> i < r.next <= |s|
  {
    DecodeString(s, i, TSTR, tol)
  }

  /** An array or map head, refused when the bytes left cannot hold its items. */
  function DecodeContainer(s: seq<byte>, i: nat, major: Major, tol: bool): (r: Dec<nat>)
    requires major == ARRAY || major == MAP
    ensures r.Ok? ==> i < r.next <= |s|
    ensures r.Ok? ==> r.value <= |s| - r.next
  {
    var (it, j) :- DecodeHead(s, i, tol);
    if it.major != major then Err(CborType)
    else if major == ARRAY && it.val > |s| - j then Err(CborMalformed)
    else if major == MAP && it.val > (|s| - j) / 2 then Err(CborMalformed)
    else Ok(it.val, j)
  }

  function DecodeArray(s: seq<byte>, i: nat, tol: bool): (r: Dec<nat>)
    ensures r.Ok? ==> i < r.next <= |s|
    ensures r.Ok? ==> r.value <= |s| - r.next
  {
    DecodeContainer(s, i, ARRAY, tol)
  }

  function DecodeMap(s: seq<byte>, i: nat, tol: bool): (r: Dec<nat>)
    ensures r.Ok? ==> i < r.next <= |s|
    ensures r.Ok? ==> r.value <= |s| - r.next
  {
    DecodeContainer(s, i, MAP, tol)
  }

  function DecodeTag(s: seq<byte>, i: nat, tol: bool): (r: Dec<u64>)
    ensures r.Ok? ==> i < r.next <= |s|
  {
    var (it, j) :- DecodeHead(s, i, tol);
    if it.major != TAG then Err(CborType) else Ok(it.val, j)
  }

  /** The major type at `i`, or 255 past the end. */
  function PeekType(s: seq<byte>, i: nat): (m: int) {
    if i < |s| then s[i] / 32 else 0xFF
  }

  /** A header label: an integer or a text. */
  datatype Label = IntLabel(n: i64) | TextLabel(text: seq<byte>)

  function DecodeLabel(s: seq<byte>, i: nat, tol: bool): (r: Dec<Label>)
    ensures r.Ok? ==> i < r.next <= |s|
  {
    var (it, j) :- DecodeHead(s, i, tol);
    if it.major == UINT then
      if it.val > INT64_MAX then Err(CborOverflow) else Ok(IntLabel(it.val), j)
    else if it.major == NEGINT then
      if it.val > INT64_MAX then Err(CborOverflow) else Ok(IntLabel(-1 - it.val), j)
    else if it.major == TSTR then Ok(TextLabel(it.data), j)
    else Err(CborType)
  }

  // ----- Skipping -----

  /** Skips `n` consecutive items, with `d` more levels of non-empty containers allowed. */
  function SkipItems(s: seq<byte>, i: nat, n: nat, d: nat, tol: bool): (r: Dec<()>)
    ensures r.Ok? ==> i <= r.next && (n > 0 ==> i + n <= r.next <= |s|)
    decreases |s| - i
  {
    if n == 0 then Ok((), i)
    else
      var (it, j) :- DecodeHead(s, i, tol);
      if it.major == TAG then SkipItems(s, j, n, d, tol)
      else if (it.major == ARRAY || it.major == MAP) && it.val > 0 then
        if d == 0 then Err(CborDepth)
        else if it.val > |s| then Err(CborMalformed)
        else if it.major == MAP && it.val > SIZE_MAX / 2 then Err(CborMalformed)
        else
          var (_, k) :- SkipItems(s, j, if it.major == MAP then 2 * it.val else it.val, d - 1, tol);
          SkipItems(s, k, n - 1, d, tol)
      else SkipItems(s, j, n - 1, d, tol)
  }

  function Skip(s: seq<byte>, i: nat, tol: bool): (r: Dec<()>)
    ensures r.Ok? ==> i < r.next <= |s|
  {
    SkipItems(s, i, 1, CBOR_MAX_DEPTH, tol)
  }
}
