/**
 The decoding and encoding contexts of the library: a buffer, its size and an
 index that every call advances.  A decoder never writes its buffer, so the buffer
 is a byte string here; an encoder writes into part of an array.
 */
module CborContext {
  import opened Wire
  import opened Utf8
  import opened Cbor

  /** The big-endian loads of the library, on the bytes they are given. */
  function LoadBE16(b0: byte, b1: byte): (v: nat)
    ensures v == FromBE([b0, b1])
  {
    BE2(b0, b1);
    (b0 as int) * 0x100 + b1
  }

  function LoadBE32(b0: byte, b1: byte, b2: byte, b3: byte): (v: nat)
    ensures v == FromBE([b0, b1, b2, b3])
  {
    BE4(b0, b1, b2, b3);
    (b0 as int) * 0x100_0000 + (b1 as int) * 0x1_0000 + (b2 as int) * 0x100 + b3
  }

  function LoadBE64(b: seq<byte>): (v: nat)
    requires |b| == 8
    ensures v == FromBE(b)
  {
    BE8(b);
    (b[0] as int) * 0x100_0000_0000_0000 + (b[1] as int) * 0x1_0000_0000_0000
    + (b[2] as int) * 0x100_0000_0000 + (b[3] as int) * 0x1_0000_0000
    + (b[4] as int) * 0x100_0000 + (b[5] as int) * 0x1_0000 + (b[6] as int) * 0x100 + b[7]
  }

  lemma BELast(b: seq<byte>, c: byte)
    ensures FromBE(b + [c]) == FromBE(b) * 256 + c
  {
    assert (b + [c])[..|b|] == b;
  }

  lemma BE2(b0: byte, b1: byte)
    ensures FromBE([b0, b1]) == (b0 as int) * 0x100 + b1
  {
    BELast([], b0);
    BELast([b0], b1);
    assert [] + [b0] == [b0] && [b0] + [b1] == [b0, b1];
  }

  lemma BE4(b0: byte, b1: byte, b2: byte, b3: byte)
    ensures FromBE([b0, b1, b2, b3])
         == (b0 as int) * 0x100_0000 + (b1 as int) * 0x1_0000 + (b2 as int) * 0x100 + b3
  {
    BE2(b0, b1);
    BELast([b0, b1], b2);
    BELast([b0, b1, b2], b3);
    assert [b0, b1] + [b2] == [b0, b1, b2] && [b0, b1, b2] + [b3] == [b0, b1, b2, b3];
  }

  lemma BE8(b: seq<byte>)
    requires |b| == 8
    ensures FromBE(b) == (b[0] as int) * 0x100_0000_0000_0000 + (b[1] as int) * 0x1_0000_0000_0000
      + (b[2] as int) * 0x100_0000_0000 + (b[3] as int) * 0x1_0000_0000
      + (b[4] as int) * 0x100_0000 + (b[5] as int) * 0x1_0000 + (b[6] as int) * 0x100 + b[7]
  {
    BE4(b[0], b[1], b[2], b[3]);
    assert b[..4] == [b[0], b[1], b[2], b[3]];
    BELast(b[..4], b[4]);
    BELast(b[..5], b[5]);
    BELast(b[..6], b[6]);
    BELast(b[..7], b[7]);
    assert b[..4] + [b[4]] == b[..5] && b[..5] + [b[5]] == b[..6];
    assert b[..6] + [b[6]] == b[..7] && b[..7] + [b[7]] == b;
  }

  /** What is left of a skip with `remaining` items at the innermost level and
      `stack` holding the counts of the enclosing ones. */
  ghost function Resume(s: seq<byte>, i: nat, remaining: nat, stack: seq<nat>, tol: bool): (r: Dec<()>)
    requires |stack| <= CBOR_MAX_DEPTH
    decreases |stack|
  {
    var r := SkipItems(s, i, remaining, CBOR_MAX_DEPTH - |stack|, tol);
    if r.Err? || stack == [] then r
    else Resume(s, r.next, stack[|stack| - 1], stack[..|stack| - 1], tol)
  }

  /** One head taken off what is left: the step of the loop. */
  lemma ResumeHead(s: seq<byte>, i: nat, remaining: nat, stack: seq<nat>, tol: bool)
    requires |stack| <= CBOR_MAX_DEPTH && remaining > 0
    ensures var h := Cbor.DecodeHead(s, i, tol);
      var r := Resume(s, i, remaining, stack, tol);
      if h.Err? then r == Err(h.error)
      else if h.value.major == TAG then r == Resume(s, h.next, remaining, stack, tol)
      else if (h.value.major == ARRAY || h.value.major == MAP) && h.value.val > 0 then
        if |stack| == CBOR_MAX_DEPTH then r == Err(CborDepth)
        else if h.value.val > |s| || (h.value.major == MAP && h.value.val > SIZE_MAX / 2) then
          r == Err(CborMalformed)
        else
          r == Resume(s, h.next, if h.value.major == MAP then 2 * h.value.val else h.value.val,
                      stack + [remaining - 1], tol)
      else r == Resume(s, h.next, remaining - 1, stack, tol)
  {
    hide Cbor.DecodeHead;
    var h := Cbor.DecodeHead(s, i, tol);
    if h.Ok? && (h.value.major == ARRAY || h.value.major == MAP) && h.value.val > 0
       && |stack| < CBOR_MAX_DEPTH && h.value.val <= |s| && (h.value.major == MAP ==> h.value.val <= SIZE_MAX / 2) {
      var m := if h.value.major == MAP then 2 * h.value.val else h.value.val;
      var kids := SkipItems(s, h.next, m, CBOR_MAX_DEPTH - |stack| - 1, tol);
      ResumePush(s, h.next, m, remaining - 1, stack, tol);
      assert SkipItems(s, i, remaining, CBOR_MAX_DEPTH - |stack|, tol)
          == if kids.Ok? then SkipItems(s, kids.next, remaining - 1, CBOR_MAX_DEPTH - |stack|, tol) else kids;
    }
  }

  lemma ResumePush(s: seq<byte>, i: nat, m: nat, r: nat, stack: seq<nat>, tol: bool)
    requires |stack| < CBOR_MAX_DEPTH
    ensures Resume(s, i, m, stack + [r], tol)
         == var kids := SkipItems(s, i, m, CBOR_MAX_DEPTH - |stack| - 1, tol);
            if kids.Err? then kids else Resume(s, kids.next, r, stack, tol)
  {
    hide SkipItems;
    assert (stack + [r])[..|stack|] == stack;
  }

  lemma ResumeStart(s: seq<byte>, i: nat, tol: bool)
    ensures Resume(s, i, 1, [], tol) == Cbor.Skip(s, i, tol)
    ensures forall e :: Resume(s, e, 0, [], tol) == Ok((), e)
  {
  }

  /** A level that is used up gives way to the enclosing one. */
  lemma ResumePop(s: seq<byte>, i: nat, stack: seq<nat>, tol: bool)
    requires 0 < |stack| <= CBOR_MAX_DEPTH
    ensures Resume(s, i, 0, stack, tol) == Resume(s, i, stack[|stack| - 1], stack[..|stack| - 1], tol)
  {
  }

  class Decoder {
    const cbuf: seq<byte>
    var idx: nat

    /** `wc_CBOR_DecoderInit`. */
    constructor (input: seq<byte>)
      ensures cbuf == input && idx == 0
    {
      cbuf := input;
      idx := 0;
    }

    method DecodeHead(tol: bool) returns (ret: Status, item: Item)
      modifies this
      ensures ret == Cbor.DecodeHead(cbuf, old(idx), tol).Status()
      ensures ret.Success? ==> Cbor.DecodeHead(cbuf, old(idx), tol) == Ok(item, idx)
      ensures ret.Success? ==> old(idx) < idx <= |cbuf|
    {
      hide HeadArgument, IsUtf8, Utf8.EncodeScalars;
      item := Item(0, 0, []);
      if idx >= |cbuf| {
        return Fail(CborMalformed), item;
      }
      var ib := cbuf[idx];
      idx := idx + 1;
      var major, ai := ib / 32, ib % 32;
      if ai == 31 {
        return Fail(Unsupported), item;
      } else if ai > 27 {
        return Fail(CborMalformed), item;
      }
      var val: u64;
      ret, val := Argument(ai);
      if ret.Fail? {
        return;
      }
      if major == SIMPLE && ai == 24 && val < 32 {
        return Fail(CborMalformed), item;
      }
      if !tol && major != SIMPLE
         && ((ai == 24 && val < 24) || (ai == 25 && val < 256)
             || (ai == 26 && val < 0x1_0000) || (ai == 27 && val < 0x1_0000_0000)) {
        return Fail(CborMalformed), item;
      }
      if major == BSTR || major == TSTR {
        if val > |cbuf| - idx {
          return Fail(CborMalformed), item;
        }
        item := Item(major, val, cbuf[idx..idx + val]);
        idx := idx + val;
        if major == TSTR {
          var ok := CheckUtf8(item.data);
          if !ok {
            return Fail(CborMalformed), item;
          }
        }
      } else {
        item := Item(major, val, []);
      }
      return Success, item;
    }

    /** The argument bytes that follow an initial byte with additional information `ai`. */
    method Argument(ai: Info) returns (ret: Status, val: u64)
      requires 1 <= idx <= |cbuf| && cbuf[idx - 1] % 32 == ai
      modifies this
      ensures ret == if old(idx) + ArgWidth(ai) > |cbuf| then Fail(CborMalformed) else Success
      ensures ret.Success? ==>
        idx == old(idx) + ArgWidth(ai) && val == HeadArgument(cbuf, old(idx) - 1)
    {
      Pow256Values();
      val := 0;
      if ai <= 23 {
        val := ai;
      } else if ai == 24 {
        if idx + 1 > |cbuf| {
          return Fail(CborMalformed), val;
        }
        val := cbuf[idx];
        BELast([], cbuf[idx]);
        assert cbuf[idx..idx + 1] == [] + [cbuf[idx]];
        idx := idx + 1;
      } else if ai == 25 {
        if idx + 2 > |cbuf| {
          return Fail(CborMalformed), val;
        }
        assert cbuf[idx..idx + 2] == [cbuf[idx], cbuf[idx + 1]];
        val := LoadBE16(cbuf[idx], cbuf[idx + 1]);
        idx := idx + 2;
      } else if ai == 26 {
        if idx + 4 > |cbuf| {
          return Fail(CborMalformed), val;
        }
        assert cbuf[idx..idx + 4] == [cbuf[idx], cbuf[idx + 1], cbuf[idx + 2], cbuf[idx + 3]];
        val := LoadBE32(cbuf[idx], cbuf[idx + 1], cbuf[idx + 2], cbuf[idx + 3]);
        idx := idx + 4;
      } else {
        if idx + 8 > |cbuf| {
          return Fail(CborMalformed), val;
        }
        val := LoadBE64(cbuf[idx..idx + 8]);
        idx := idx + 8;
      }
      ret := Success;
    }

    method DecodeUint(tol: bool) returns (ret: Status, val: u64)
      modifies this
      ensures ret == Cbor.DecodeUint(cbuf, old(idx), tol).Status()
      ensures ret.Success? ==> Cbor.DecodeUint(cbuf, old(idx), tol) == Ok(val, idx)
    {
      var item;
      val := 0;
      ret, item := DecodeHead(tol);
      if ret.Success? {
        if item.major != UINT {
          ret := Fail(CborType);
        } else {
          val := item.val;
        }
      }
    }

    method DecodeInt(tol: bool) returns (ret: Status, val: i64)
      modifies this
      ensures ret == Cbor.DecodeInt(cbuf, old(idx), tol).Status()
      ensures ret.Success? ==> Cbor.DecodeInt(cbuf, old(idx), tol) == Ok(val, idx)
    {
      var item;
      val := 0;
      ret, item := DecodeHead(tol);
      if ret.Success? {
        if item.major == UINT {
          if item.val > INT64_MAX {
            ret := Fail(CborOverflow);
          } else {
            val := item.val;
          }
        } else if item.major == NEGINT {
          if item.val > INT64_MAX {
            ret := Fail(CborOverflow);
          } else {
            val := -1 - item.val;
          }
        } else {
          ret := Fail(CborType);
        }
      }
    }

    /** The decoder that byte and text strings share. */
    method DecodeString(major: Major, tol: bool) returns (ret: Status, data: seq<byte>)
      requires major == BSTR || major == TSTR
      modifies this
      ensures ret == Cbor.DecodeString(cbuf, old(idx), major, tol).Status()
      ensures ret.Success? ==> Cbor.DecodeString(cbuf, old(idx), major, tol) == Ok(data, idx)
    {
      var item;
      data := [];
      ret, item := DecodeHead(tol);
      if ret.Success? {
        if item.major != major {
          ret := Fail(CborType);
        } else {
          data := item.data;
        }
      }
    }

    method DecodeBstr(tol: bool) returns (ret: Status, data: seq<byte>)
      modifies this
      ensures ret == Cbor.DecodeBstr(cbuf, old(idx), tol).Status()
      ensures ret.Success? ==> Cbor.DecodeBstr(cbuf, old(idx), tol) == Ok(data, idx)
    {
      ret, data := DecodeString(BSTR, tol);
    }

    method DecodeTstr(tol: bool) returns (ret: Status, data: seq<byte>)
      modifies this
      ensures ret == Cbor.DecodeTstr(cbuf, old(idx), tol).Status()
      ensures ret.Success? ==> Cbor.DecodeTstr(cbuf, old(idx), tol) == Ok(data, idx)
    {
      ret, data := DecodeString(TSTR, tol);
    }

    /** The decoder that array and map heads share. */
    method DecodeContainer(major: Major, tol: bool) returns (ret: Status, count: nat)
      requires major == ARRAY || major == MAP
      modifies this
      ensures ret == Cbor.DecodeContainer(cbuf, old(idx), major, tol).Status()
      ensures ret.Success? ==> Cbor.DecodeContainer(cbuf, old(idx), major, tol) == Ok(count, idx)
    {
      var item;
      count := 0;
      ret, item := DecodeHead(tol);
      if ret.Success? {
        if item.major != major {
          ret := Fail(CborType);
        } else if (major == ARRAY && item.val > |cbuf| - idx)
                  || (major == MAP && item.val > (|cbuf| - idx) / 2) {
          ret := Fail(CborMalformed);
        } else {
          count := item.val;
        }
      }
    }

    method DecodeArray(tol: bool) returns (ret: Status, count: nat)
      modifies this
      ensures ret == Cbor.DecodeArray(cbuf, old(idx), tol).Status()
      ensures ret.Success? ==> Cbor.DecodeArray(cbuf, old(idx), tol) == Ok(count, idx)
    {
      ret, count := DecodeContainer(ARRAY, tol);
    }

    method DecodeMap(tol: bool) returns (ret: Status, count: nat)
      modifies this
      ensures ret == Cbor.DecodeMap(cbuf, old(idx), tol).Status()
      ensures ret.Success? ==> Cbor.DecodeMap(cbuf, old(idx), tol) == Ok(count, idx)
    {
      ret, count := DecodeContainer(MAP, tol);
    }

    method DecodeTag(tol: bool) returns (ret: Status, tag: u64)
      modifies this
      ensures ret == Cbor.DecodeTag(cbuf, old(idx), tol).Status()
      ensures ret.Success? ==> Cbor.DecodeTag(cbuf, old(idx), tol) == Ok(tag, idx)
    {
      var item;
      tag := 0;
      ret, item := DecodeHead(tol);
      if ret.Success? {
        if item.major != TAG {
          ret := Fail(CborType);
        } else {
          tag := item.val;
        }
      }
    }

    function PeekType(): (m: int)
      reads this
      ensures m == Cbor.PeekType(cbuf, idx)
    {
      if idx < |cbuf| then cbuf[idx] / 32 else 0xFF
    }

    method DecodeLabel(tol: bool) returns (ret: Status, lbl: Label)
      modifies this
      ensures ret == Cbor.DecodeLabel(cbuf, old(idx), tol).Status()
      ensures ret.Success? ==> Cbor.DecodeLabel(cbuf, old(idx), tol) == Ok(lbl, idx)
    {
      var item;
      lbl := IntLabel(0);
      ret, item := DecodeHead(tol);
      if ret.Success? {
        if item.major == UINT {
          if item.val > INT64_MAX {
            ret := Fail(CborOverflow);
          } else {
            lbl := IntLabel(item.val);
          }
        } else if item.major == NEGINT {
          if item.val > INT64_MAX {
            ret := Fail(CborOverflow);
          } else {
            lbl := IntLabel(-1 - item.val);
          }
        } else if item.major == TSTR {
          lbl := TextLabel(item.data);
        } else {
          ret := Fail(CborType);
        }
      }
    }

    /** Skips one item without recursion: `stack` holds how many items are left at
        every enclosing level. */
    method Skip(tol: bool) returns (ret: Status)
      modifies this
      ensures ret == Cbor.Skip(cbuf, old(idx), tol).Status()
      ensures ret.Success? ==> Cbor.Skip(cbuf, old(idx), tol) == Ok((), idx)
    {
      hide Resume, SkipItems, Cbor.DecodeHead;
      var stack := new nat[CBOR_MAX_DEPTH];
      var depth: nat := 0;
      var remaining: nat := 1;
      ret := Success;
      ghost var goal := Cbor.Skip(cbuf, idx, tol);
      ResumeStart(cbuf, idx, tol);
      assert stack[..0] == [];
      while remaining > 0 && ret.Success?
        invariant 0 <= depth <= CBOR_MAX_DEPTH
        invariant remaining == 0 ==> depth == 0
        invariant ret.Success? ==> Resume(cbuf, idx, remaining, stack[..depth], tol) == goal
        invariant ret.Fail? ==> goal == Err(ret.error)
        decreases ret.Success?, if idx > |cbuf| then 0 else |cbuf| - idx + 1
      {
        ResumeHead(cbuf, idx, remaining, stack[..depth], tol);
        ghost var before := stack[..depth];
        var item;
        ret, item := DecodeHead(tol);
        if ret.Fail? {
          break;
        }
        remaining := remaining - 1;
        if item.major == ARRAY {
          if item.val > 0 {
            if depth >= CBOR_MAX_DEPTH {
              ret := Fail(CborDepth);
            } else if item.val > |cbuf| {
              ret := Fail(CborMalformed);
            } else {
              stack[depth] := remaining;
              depth := depth + 1;
              remaining := item.val;
              assert stack[..depth] == before + [stack[depth - 1]];
            }
          }
        } else if item.major == MAP {
          if item.val > 0 {
            if depth >= CBOR_MAX_DEPTH {
              ret := Fail(CborDepth);
            } else if item.val > |cbuf| {
              ret := Fail(CborMalformed);
            } else if item.val > SIZE_MAX / 2 {
              ret := Fail(CborMalformed);
            } else {
              stack[depth] := remaining;
              depth := depth + 1;
              remaining := item.val * 2;
              assert stack[..depth] == before + [stack[depth - 1]];
            }
          }
        } else if item.major == TAG {
          remaining := remaining + 1;
        }
        ghost var here := idx;
        while remaining == 0 && depth > 0
          invariant idx == here
          invariant 0 <= depth <= CBOR_MAX_DEPTH
          invariant ret.Success? ==> Resume(cbuf, idx, remaining, stack[..depth], tol) == goal
          decreases depth
        {
          ResumePop(cbuf, idx, stack[..depth], tol);
          assert stack[..depth][..depth - 1] == stack[..depth - 1];
          depth := depth - 1;
          remaining := stack[depth];
        }
      }
    }

    /** `wc_CBOR_SkipItem`: skips one item, strictly, and returns its bytes. */
    method SkipItem() returns (ret: Status, data: seq<byte>)
      modifies this
      ensures ret == Cbor.Skip(cbuf, old(idx), false).Status()
      ensures ret.Success? ==> Cbor.Skip(cbuf, old(idx), false) == Ok((), idx)
                               && old(idx) <= idx <= |cbuf| && data == cbuf[old(idx)..idx]
    {
      var start := idx;
      data := [];
      ret := Skip(false);
      if ret.Success? {
        data := cbuf[start..idx];
      }
    }
  }
}
