/**
 Arrays nested in each other, to any depth: the encodings that tell how deep a decoder goes.
 */
module NestedArrays {
  import opened Wire
  import opened Cbor
  import opened CborGrammar
  import opened CborRoundTrip

  /** `d` arrays of one element inside each other, around a zero. */
  function Deep(d: nat): (b: seq<byte>)
    ensures |b| == d + 1
  {
    if d == 0 then [0x00] else [0x81] + Deep(d - 1)
  }

  /** A head of one byte. */
  lemma ByteHead(s: seq<byte>, i: nat, tol: bool)
    requires i < |s| && s[i] % 32 <= 23 && s[i] / 32 != TSTR
    requires s[i] / 32 == BSTR ==> s[i] % 32 == 0
    ensures DecodeHead(s, i, tol) == Ok(Item(s[i] / 32, s[i] % 32, []), i + 1)
  {
  }

  lemma DeepStart(d: nat, s: seq<byte>, i: nat)
    requires SameSlice(Deep(d), 0, s, i, d + 1)
    ensures i + d < |s| && s[i] == if d == 0 then 0x00 else 0x81
    ensures d > 0 ==> SameSlice(Deep(d - 1), 0, s, i + 1, d)
  {
    SameSliceAt(Deep(d), 0, s, i, d + 1, 0);
    if d > 0 {
      assert Deep(d) == [0x81] + Deep(d - 1);
      SameSlicePart(Deep(d), 0, s, i, d + 1, 1, d);
      assert Deep(d)[1..d + 1] == Deep(d - 1) == Deep(d - 1)[0..d];
    }
  }

  /** Nested arrays are skipped exactly when the depth that is left holds them. */
  lemma {:induction false} DeepSkip(d: nat, s: seq<byte>, i: nat, left: nat, tol: bool)
    requires SameSlice(Deep(d), 0, s, i, d + 1)
    ensures SkipItems(s, i, 1, left, tol).Ok? <==> d <= left
    ensures d <= left ==> SkipItems(s, i, 1, left, tol) == Ok((), i + d + 1)
    decreases d
  {
    hide SkipItems, DecodeHead, SameSlice, Deep;
    DeepStart(d, s, i);
    ByteHead(s, i, tol);
    if d == 0 {
      SkipOfHead(s, i, left, tol);
    } else if left == 0 {
      SkipTooDeep(s, i, tol);
    } else {
      SkipContainer(s, i, 1, left, tol);
      DeepSkip(d - 1, s, i + 1, left - 1, tol);
      SkipNothing(s, i + d + 1, left, tol, i + d + 1);
    }
  }

  lemma SkipTooDeep(s: seq<byte>, i: nat, tol: bool)
    requires DecodeHead(s, i, tol).Ok?
    requires DecodeHead(s, i, tol).value.major == ARRAY && DecodeHead(s, i, tol).value.val > 0
    ensures SkipItems(s, i, 1, 0, tol) == Err(CborDepth)
  {
    hide DecodeHead;
  }
}
