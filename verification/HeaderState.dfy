/**
 The labels seen so far in a header, as the library keeps them: a word of bits for
 labels of small magnitude, a bounded list of other integers, and a bounded list of
 the places where text labels stand.  Together they are one set of labels.
 */
module HeaderState {
  import opened Wire
  import opened Utf8
  import opened Cbor
  import opened Bits

  /** The tracking bit of a label from 1 to 16 or from -16 to -1, and 0 for any other. */
  function LabelBit(n: i64): (b: bv32) {
    if 1 <= n <= 16 then Bit(n - 1)
    else if -16 <= n <= -1 then Bit(-n + 15)
    else 0
  }

  predicate Tracked(n: i64) {
    -16 <= n <= 16 && n != 0
  }

  /** The tracking bit of `n` is set. */
  predicate InBits(bits: bv32, n: i64) {
    And(bits, LabelBit(n)) != 0
  }

  /** Different tracked labels have disjoint bits. */
  lemma LabelBitsDisjoint(n: i64, m: i64)
    ensures LabelBit(n) != 0 <==> Tracked(n)
    ensures InBits(LabelBit(n), m) <==> Tracked(n) && n == m
  {
    hide And, Bit;
    var i: int := if n > 0 then n - 1 else 15 - n;
    var j: int := if m > 0 then m - 1 else 15 - m;
    AndZero(LabelBit(n));
    AndZero(LabelBit(m));
    if Tracked(n) {
      OneHot(i, i);
      if Tracked(m) {
        OneHot(i, j);
      }
    }
  }

  lemma InOrBits(a: bv32, b: bv32, n: i64)
    ensures InBits(Or(a, b), n) <==> InBits(a, n) || InBits(b, n)
  {
    hide LabelBit, And, Or;
    ClearInOr(a, b, LabelBit(n));
  }

  lemma OnlyTracked(a: bv32, n: i64)
    ensures InBits(a, n) ==> Tracked(n)
    ensures !InBits(0, n)
  {
    hide And, Bit;
    AndZero(a);
    AndZero(LabelBit(n));
  }

  /** Setting the bit of `n` adds `n` and nothing else. */
  lemma InBitsAfterAdd(bits: bv32, n: i64, m: i64)
    requires Tracked(n)
    ensures InBits(Or(bits, LabelBit(n)), m) <==> InBits(bits, m) || n == m
  {
    hide LabelBit, Or, InBits;
    InOrBits(bits, LabelBit(n), m);
    LabelBitsDisjoint(n, m);
  }

  /** The text of a label encoded at the front of `encoded`. */
  ghost function EncodedText(encoded: seq<byte>): seq<byte>
    requires DecodeTstr(encoded, 0, true).Ok?
  {
    DecodeTstr(encoded, 0, true).value
  }

  /** `wc_CBOR_LabelIsText`, on a text label: it looks at every byte. */
  method LabelIsText(text: seq<byte>, other: seq<byte>) returns (match_: bool)
    requires |text| <= |other|
    ensures match_ <==> text == other[..|text|]
  {
    var differs := false;
    var i := 0;
    while i < |text|
      invariant 0 <= i <= |text|
      invariant differs <==> text[..i] != other[..i]
    {
      assert text[..i + 1] == text[..i] + [text[i]] && other[..i + 1] == other[..i] + [other[i]];
      differs := differs || text[i] != other[i];
      i := i + 1;
    }
    assert text[..|text|] == text;
    return !differs;
  }

  /** Where the text of an encoded label lies. */
  lemma TextHead(encoded: seq<byte>)
    requires DecodeTstr(encoded, 0, true).Ok?
    ensures encoded[0] % 32 <= 27
    ensures var ai := encoded[0] % 32; var h := 1 + ArgWidth(ai);
      && h <= |encoded|
      && var len := if ai < 24 then ai else FromBE(encoded[1..h]);
      h + len <= |encoded| && EncodedText(encoded) == encoded[h..h + len] && |EncodedText(encoded)| == len
  {
    HeadBytesOfDecoded(encoded, 0, true);
    hide IsUtf8;
  }

  /** The head length and the text length of a stored text label, by its additional information. */
  method StoredTextLength(encoded: seq<byte>) returns (headLen: nat, textLen: nat)
    requires DecodeTstr(encoded, 0, true).Ok?
    ensures headLen + textLen <= |encoded| && EncodedText(encoded) == encoded[headLen..headLen + textLen]
  {
    TextHead(encoded);
    hide *;
    var ai := encoded[0] % 32;
    textLen := 0;
    headLen := 0;
    if ai < 24 {
      textLen := ai;
      headLen := 1;
    } else {
      if ai == 24 {
        headLen := 2;
      } else if ai == 25 {
        headLen := 3;
      } else if ai == 26 {
        headLen := 5;
      } else {
        headLen := 9;
      }
      Widths();
      NoArgumentBytes(encoded);
      var i := 1;
      while i < headLen
        invariant 1 <= i <= headLen
        invariant textLen == FromBE(encoded[1..i])
      {
        NextByte(encoded, i);
        textLen := textLen * 256 + encoded[i];
        i := i + 1;
      }
    }
  }

  lemma Widths()
    ensures ArgWidth(24) == 1 && ArgWidth(25) == 2 && ArgWidth(26) == 4 && ArgWidth(27) == 8
    ensures forall ai: Info :: ai < 24 ==> ArgWidth(ai) == 0
  {
  }

  lemma NoArgumentBytes(b: seq<byte>)
    requires |b| > 0
    ensures FromBE(b[1..1]) == 0
  {
  }

  lemma NextByte(b: seq<byte>, i: nat)
    requires 1 <= i < |b|
    ensures FromBE(b[1..i + 1]) == FromBE(b[1..i]) * 256 + b[i]
  {
    assert b[1..i + 1][..i - 1] == b[1..i];
  }

  /** Compares a stored text label, read again from its encoding, with a decoded one. */
  method TextLabelEquals(encoded: seq<byte>, text: seq<byte>) returns (equal: bool)
    requires |encoded| <= SIZE_MAX && DecodeTstr(encoded, 0, true).Ok?
    ensures equal <==> EncodedText(encoded) == text
  {
    var headLen, textLen := StoredTextLength(encoded);
    hide EncodedText, DecodeTstr;
    equal := false;
    if textLen <= SIZE_MAX - headLen && textLen == |text| {
      equal := LabelIsText(text, encoded[headLen..]);
      SubSlice(encoded, headLen, |encoded|, 0, textLen);
    }
  }

  class HdrState {
    var labelBits: bv32
    var extraIntegerLabels: seq<i64>
    var extraTextLabels: seq<seq<byte>>
    ghost var labels: set<Label>

    ghost predicate Valid()
      reads this
    {
      && |extraIntegerLabels| <= MAX_MAP_ITEMS && |extraTextLabels| <= MAX_MAP_ITEMS
      && (forall n: i64 :: IntLabel(n) in labels <==> HasInteger(n))
      && (forall n :: n in extraIntegerLabels ==> !Tracked(n))
      && (forall k :: 0 <= k < |extraTextLabels| ==>
            |extraTextLabels[k]| <= SIZE_MAX && DecodeTstr(extraTextLabels[k], 0, true).Ok?)
      && (forall t :: TextLabel(t) in labels <==> HasText(t))
    }

    ghost predicate HasInteger(n: i64)
      reads this
    {
      InBits(labelBits, n) || n in extraIntegerLabels
    }

    ghost predicate HasText(t: seq<byte>)
      requires forall k :: 0 <= k < |extraTextLabels| ==> DecodeTstr(extraTextLabels[k], 0, true).Ok?
      reads this
    {
      exists k :: 0 <= k < |extraTextLabels| && EncodedText(extraTextLabels[k]) == t
    }

    constructor ()
      ensures Valid() && labels == {}
      ensures |extraIntegerLabels| == 0 && |extraTextLabels| == 0
    {
      labelBits := 0;
      extraIntegerLabels := [];
      extraTextLabels := [];
      labels := {};
      new;
      forall n: i64
        ensures !HasInteger(n)
      {
        OnlyTracked(0, n);
      }
    }

    /** `wolfCose_HdrStateInit`. */
    method Init()
      modifies this
      ensures Valid() && labels == {}
      ensures |extraIntegerLabels| == 0 && |extraTextLabels| == 0
    {
      labelBits := 0;
      extraIntegerLabels := [];
      extraTextLabels := [];
      labels := {};
      forall n: i64
        ensures !HasInteger(n)
      {
        OnlyTracked(0, n);
      }
    }

    method Contains(n: i64) returns (found: bool)
      requires Valid()
      ensures found <==> IntLabel(n) in labels
    {
      hide And, Bit, LabelBit, DecodeTstr, InBits, Or;
      var bit := LabelBit(n);
      LabelBitsDisjoint(n, n);
      found := false;
      if bit != 0 && And(labelBits, bit) != 0 {
        BitSet(labelBits, n);
        found := true;
      } else {
        var i := 0;
        while i < |extraIntegerLabels|
          invariant 0 <= i <= |extraIntegerLabels|
          invariant n !in extraIntegerLabels[..i]
        {
          if extraIntegerLabels[i] == n {
            assert HasInteger(n);
            return true;
          }
          i := i + 1;
        }
        assert extraIntegerLabels[..i] == extraIntegerLabels;
        NoBit(labelBits, n);
        assert !HasInteger(n);
      }
    }

    static lemma BitSet(bits: bv32, n: i64)
      requires And(bits, LabelBit(n)) != 0
      ensures InBits(bits, n)
    {
    }

    static lemma NoBit(bits: bv32, n: i64)
      requires !(LabelBit(n) != 0 && And(bits, LabelBit(n)) != 0)
      ensures !InBits(bits, n)
    {
      AndZero(bits);
    }

    method Add(n: i64) returns (ret: Status)
      requires Valid()
      modifies this
      ensures Valid() && extraTextLabels == old(extraTextLabels)
      ensures ret == if !Tracked(n) && |old(extraIntegerLabels)| >= MAX_MAP_ITEMS then Fail(CborMalformed)
                     else Success
      ensures labels == if ret.Success? then old(labels) + {IntLabel(n)} else old(labels)
      ensures |extraIntegerLabels| <= |old(extraIntegerLabels)| + 1
      ensures ret.Fail? ==> labelBits == old(labelBits) && extraIntegerLabels == old(extraIntegerLabels)
    {
      hide And, Bit, LabelBit, DecodeTstr, InBits, Or;
      var bit := LabelBit(n);
      LabelBitsDisjoint(n, n);
      ret := Success;
      if bit != 0 {
        labelBits := Or(labelBits, bit);
        labels := labels + {IntLabel(n)};
        forall m: i64
          ensures IntLabel(m) in labels <==> HasInteger(m)
        {
          InBitsAfterAdd(old(labelBits), n, m);
          assert IntLabel(m) in old(labels) <==> old(HasInteger(m));
        }
      } else if |extraIntegerLabels| >= MAX_MAP_ITEMS {
        ret := Fail(CborMalformed);
      } else {
        extraIntegerLabels := extraIntegerLabels + [n];
        labels := labels + {IntLabel(n)};
        forall m: i64
          ensures IntLabel(m) in labels <==> HasInteger(m)
        {
          assert IntLabel(m) in old(labels) <==> old(HasInteger(m));
        }
      }
      TextsKept();
    }

    /** Adding an integer label leaves the text labels as they were. */
    twostate lemma TextsKept()
      requires extraTextLabels == old(extraTextLabels)
      requires forall k :: 0 <= k < |extraTextLabels| ==>
        |extraTextLabels[k]| <= SIZE_MAX && DecodeTstr(extraTextLabels[k], 0, true).Ok?
      requires forall t :: TextLabel(t) in labels <==> TextLabel(t) in old(labels)
      requires forall t :: TextLabel(t) in old(labels) <==> old(HasText(t))
      ensures forall t :: TextLabel(t) in labels <==> HasText(t)
    {
      forall t
        ensures TextLabel(t) in labels <==> HasText(t)
      {
        assert TextLabel(t) in old(labels) <==> old(HasText(t));
        assert old(HasText(t)) <==> HasText(t);
      }
    }

    method CheckAndAdd(n: i64) returns (ret: Status)
      requires Valid()
      modifies this
      ensures Valid() && extraTextLabels == old(extraTextLabels)
      ensures ret == if IntLabel(n) in old(labels) then Fail(CborMalformed)
                     else if !Tracked(n) && |old(extraIntegerLabels)| >= MAX_MAP_ITEMS then Fail(CborMalformed)
                     else Success
      ensures labels == if ret.Success? then old(labels) + {IntLabel(n)} else old(labels)
      ensures |extraIntegerLabels| <= |old(extraIntegerLabels)| + 1
    {
      var found := Contains(n);
      if found {
        ret := Fail(CborMalformed);
      } else {
        ret := Add(n);
      }
    }

    method ContainsLabel(lbl: Label) returns (found: bool)
      requires Valid()
      ensures found <==> lbl in labels
    {
      hide DecodeTstr, InBits;
      match lbl
      case IntLabel(n) =>
        found := Contains(n);
      case TextLabel(text) =>
        found := false;
        var i := 0;
        while i < |extraTextLabels|
          invariant 0 <= i <= |extraTextLabels|
          invariant forall k :: 0 <= k < i ==> EncodedText(extraTextLabels[k]) != text
        {
          var equal := TextLabelEquals(extraTextLabels[i], text);
          if equal {
            assert HasText(text);
            return true;
          }
          i := i + 1;
        }
        assert !HasText(text);
    }

    /** Adds a label; `encoded` is where it stands, kept for text labels. */
    method AddLabel(lbl: Label, encoded: seq<byte>) returns (ret: Status)
      requires Valid() && |encoded| <= SIZE_MAX
      requires lbl.TextLabel? ==> DecodeTstr(encoded, 0, true).Ok? && EncodedText(encoded) == lbl.text
      modifies this
      ensures Valid()
      ensures ret == if lbl.IntLabel? && !Tracked(lbl.n) && |old(extraIntegerLabels)| >= MAX_MAP_ITEMS then Fail(CborMalformed)
                     else if lbl.TextLabel? && |old(extraTextLabels)| >= MAX_MAP_ITEMS then Fail(CborMalformed)
                     else Success
      ensures labels == if ret.Success? then old(labels) + {lbl} else old(labels)
      ensures |extraIntegerLabels| <= |old(extraIntegerLabels)| + 1
      ensures |extraTextLabels| <= |old(extraTextLabels)| + 1
    {
      match lbl
      case IntLabel(n) =>
        ret := Add(n);
      case TextLabel(text) =>
        if |extraTextLabels| >= MAX_MAP_ITEMS {
          ret := Fail(CborMalformed);
        } else {
          extraTextLabels := extraTextLabels + [encoded];
          labels := labels + {lbl};
          ret := Success;
          TextAdded(encoded);
          forall m: i64
            ensures IntLabel(m) in labels <==> HasInteger(m)
          {
            assert IntLabel(m) in old(labels) <==> old(HasInteger(m));
          }
        }
    }

    twostate lemma TextAdded(encoded: seq<byte>)
      requires extraTextLabels == old(extraTextLabels) + [encoded] && DecodeTstr(encoded, 0, true).Ok?
      requires forall k :: 0 <= k < |extraTextLabels| ==> DecodeTstr(extraTextLabels[k], 0, true).Ok?
      requires forall k :: 0 <= k < |old(extraTextLabels)| ==> DecodeTstr(old(extraTextLabels)[k], 0, true).Ok?
      requires labels == old(labels) + {TextLabel(EncodedText(encoded))}
      requires forall t :: TextLabel(t) in old(labels) <==> old(HasText(t))
      ensures forall t :: TextLabel(t) in labels <==> HasText(t)
    {
      forall t
        ensures TextLabel(t) in labels <==> HasText(t)
      {
        assert TextLabel(t) in old(labels) <==> old(HasText(t));
        if old(HasText(t)) {
          var k :| 0 <= k < |old(extraTextLabels)| && EncodedText(old(extraTextLabels)[k]) == t;
          assert EncodedText(extraTextLabels[k]) == t;
        }
        if t == EncodedText(encoded) {
          assert EncodedText(extraTextLabels[|extraTextLabels| - 1]) == t;
        }
        if HasText(t) {
          var k :| 0 <= k < |extraTextLabels| && EncodedText(extraTextLabels[k]) == t;
          if k < |old(extraTextLabels)| {
            assert EncodedText(old(extraTextLabels)[k]) == t;
          }
        }
      }
    }

    method CheckAndAddLabel(lbl: Label, encoded: seq<byte>) returns (ret: Status)
      requires Valid() && |encoded| <= SIZE_MAX
      requires lbl.TextLabel? ==> DecodeTstr(encoded, 0, true).Ok? && EncodedText(encoded) == lbl.text
      modifies this
      ensures Valid()
      ensures ret == if lbl in old(labels) then Fail(CborMalformed)
                     else if lbl.IntLabel? && !Tracked(lbl.n) && |old(extraIntegerLabels)| >= MAX_MAP_ITEMS then Fail(CborMalformed)
                     else if lbl.TextLabel? && |old(extraTextLabels)| >= MAX_MAP_ITEMS then Fail(CborMalformed)
                     else Success
      ensures labels == if ret.Success? then old(labels) + {lbl} else old(labels)
      ensures |extraIntegerLabels| <= |old(extraIntegerLabels)| + 1
      ensures |extraTextLabels| <= |old(extraTextLabels)| + 1
    {
      if lbl.IntLabel? {
        ret := CheckAndAdd(lbl.n);
      } else {
        var found := ContainsLabel(lbl);
        if found {
          ret := Fail(CborMalformed);
        } else {
          ret := AddLabel(lbl, encoded);
        }
      }
    }

    /** Takes over the bits of another state: its labels of small magnitude. */
    method MergeBits(that: HdrState)
      requires Valid() && that.Valid()
      modifies this
      ensures Valid()
      ensures forall n: i64 :: IntLabel(n) in labels <==>
        IntLabel(n) in old(labels) || (Tracked(n) && IntLabel(n) in old(that.labels) && old(InBits(that.labelBits, n)))
      ensures forall t :: TextLabel(t) in labels <==> TextLabel(t) in old(labels)
    {
      hide And, Bit, LabelBit, DecodeTstr, InBits, Or;
      ghost var merged := set l | l in that.labels && l.IntLabel? && InBits(that.labelBits, l.n);
      labelBits := Or(labelBits, that.labelBits);
      labels := labels + merged;
      forall m: i64
        ensures IntLabel(m) in labels <==> HasInteger(m)
        ensures IntLabel(m) in merged ==> Tracked(m)
      {
        InOrBits(old(labelBits), old(that.labelBits), m);
        OnlyTracked(old(that.labelBits), m);
        assert IntLabel(m) in old(labels) <==> old(HasInteger(m));
        assert IntLabel(m) in old(that.labels) <==> old(that.HasInteger(m));
      }
      TextsKept();
    }
  }
}
