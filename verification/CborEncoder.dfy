/**
 The encoding context: a part of an array and the index of the next byte to write.
 Every method is proved to write exactly the bytes of the functions in Cbor.dfy and
 CborRoundTrip.dfy, and to leave every other byte of the array alone.
 */
module CborEncoder {
  import opened Wire
  import opened Utf8
  import opened Memory
  import opened Cbor
  import opened CborRoundTrip

  lemma BE2Of(v: nat)
    ensures ToBE(v, 2) == [v / 0x100 % 0x100, v % 0x100]
  {
    assert ToBE(v / 0x100, 1) == [v / 0x100 % 0x100];
  }

  lemma BE4Of(v: nat)
    ensures ToBE(v, 4)
         == [v / 0x100_0000 % 0x100, v / 0x1_0000 % 0x100, v / 0x100 % 0x100, v % 0x100]
  {
    BE2Of(v / 0x100 / 0x100);
    assert ToBE(v / 0x100, 3) == ToBE(v / 0x100 / 0x100, 2) + [v / 0x100 % 0x100];
    assert v / 0x100 / 0x100 == v / 0x1_0000 && v / 0x1_0000 / 0x100 == v / 0x100_0000;
  }

  lemma BE8Of(v: nat)
    ensures ToBE(v, 8)
         == [v / 0x100_0000_0000_0000 % 0x100, v / 0x1_0000_0000_0000 % 0x100,
             v / 0x100_0000_0000 % 0x100, v / 0x1_0000_0000 % 0x100,
             v / 0x100_0000 % 0x100, v / 0x1_0000 % 0x100, v / 0x100 % 0x100, v % 0x100]
  {
    var w := v / 0x1_0000_0000;
    BE4Of(w);
    BESplit(v);
    BE4Of(v % 0x1_0000_0000);
    LowBytes(v);
    HighBytes(v);
  }

  /** Taking the low four bytes of `v` does not change its four low bytes. */
  lemma LowBytes(v: nat)
    ensures var u := v % 0x1_0000_0000;
      u / 0x100_0000 % 0x100 == v / 0x100_0000 % 0x100 && u / 0x1_0000 % 0x100 == v / 0x1_0000 % 0x100
      && u / 0x100 % 0x100 == v / 0x100 % 0x100 && u % 0x100 == v % 0x100
  {
    var q, u := v / 0x1_0000_0000, v % 0x1_0000_0000;
    assert v == q * 0x1_0000_0000 + u;
    assert v / 0x100_0000 == q * 0x100 + u / 0x100_0000;
    assert v / 0x1_0000 == q * 0x1_0000 + u / 0x1_0000;
    assert v / 0x100 == q * 0x100_0000 + u / 0x100;
    ModOfSum(q, u / 0x100_0000);
    ModOfSum(q * 0x100, u / 0x1_0000);
    ModOfSum(q * 0x1_0000, u / 0x100);
    ModOfSum(q * 0x100_0000, u);
  }

  lemma ModOfSum(q: nat, x: nat)
    ensures (q * 0x100 + x) % 0x100 == x % 0x100
  {
  }

  lemma HighBytes(v: nat)
    ensures var w := v / 0x1_0000_0000;
      w / 0x100_0000 == v / 0x100_0000_0000_0000 && w / 0x1_0000 == v / 0x1_0000_0000_0000
      && w / 0x100 == v / 0x100_0000_0000
  {
  }

  /** The eight bytes of `v` are the four bytes of its upper half and of its lower half. */
  lemma BESplit(v: nat)
    ensures ToBE(v, 8) == ToBE(v / 0x1_0000_0000, 4) + ToBE(v % 0x1_0000_0000, 4)
  {
    var a := v / 0x100;
    var b := a / 0x100;
    var c := b / 0x100;
    var d := c / 0x100;
    assert ToBE(v, 8) == ToBE(a, 7) + [v % 0x100];
    assert ToBE(a, 7) == ToBE(b, 6) + [a % 0x100];
    assert ToBE(b, 6) == ToBE(c, 5) + [b % 0x100];
    assert ToBE(c, 5) == ToBE(d, 4) + [c % 0x100];
    assert d == v / 0x1_0000_0000;
    BE4Of(v % 0x1_0000_0000);
    LowBytes(v);
    assert b == v / 0x1_0000 && c == v / 0x100_0000;
  }

  method StoreBE16(buf: array<byte>, at: nat, val: u64)
    requires at + 2 <= buf.Length
    modifies buf
    ensures buf[..] == Patch(old(buf[..]), at, ToBE(val, 2))
  {
    hide ToBE;
    var beVal := val % 0x1_0000;
    buf[at] := beVal / 0x100;
    buf[at + 1] := beVal % 0x100;
    BE2Of(val);
    PatchIs(buf[..], old(buf[..]), at, ToBE(val, 2));
  }

  method StoreBE32(buf: array<byte>, at: nat, val: u64)
    requires at + 4 <= buf.Length
    modifies buf
    ensures buf[..] == Patch(old(buf[..]), at, ToBE(val, 4))
  {
    hide ToBE;
    var beVal := val % 0x1_0000_0000;
    buf[at] := beVal / 0x100_0000 % 0x100;
    buf[at + 1] := beVal / 0x1_0000 % 0x100;
    buf[at + 2] := beVal / 0x100 % 0x100;
    buf[at + 3] := beVal % 0x100;
    BE4Of(val);
    LowBytes(val);
    PatchIs(buf[..], old(buf[..]), at, ToBE(val, 4));
  }

  method StoreBE64(buf: array<byte>, at: nat, val: u64)
    requires at + 8 <= buf.Length
    modifies buf
    ensures buf[..] == Patch(old(buf[..]), at, ToBE(val, 8))
  {
    buf[at] := val / 0x100_0000_0000_0000 % 0x100;
    buf[at + 1] := val / 0x1_0000_0000_0000 % 0x100;
    buf[at + 2] := val / 0x100_0000_0000 % 0x100;
    buf[at + 3] := val / 0x1_0000_0000 % 0x100;
    buf[at + 4] := val / 0x100_0000 % 0x100;
    buf[at + 5] := val / 0x1_0000 % 0x100;
    buf[at + 6] := val / 0x100 % 0x100;
    buf[at + 7] := val % 0x100;
    BE8Of(val);
    PatchIs(buf[..], old(buf[..]), at, ToBE(val, 8));
  }

  lemma NoArgument(first: byte, val: nat)
    ensures [first] + ToBE(val, 0) == [first]
  {
  }

  lemma ByteArgument(first: byte, val: byte)
    ensures [first] + ToBE(val, 1) == [first, val]
  {
    assert ToBE(val / 256, 0) == [];
  }

  /** The bytes of `now` outside the `size` bytes from `at` on are those of `was`. */
  ghost predicate OnlyWithin(was: seq<byte>, now: seq<byte>, at: nat, size: nat) {
    |was| == |now| && at + size <= |was| && was[..at] == now[..at] && was[at + size..] == now[at + size..]
  }

  /** One more item written behind what was written so far. */
  lemma OneMore(was: seq<byte>, start: nat, size: nat, k: nat, soFar: seq<byte>, b: seq<byte>)
    requires start <= k && k + |soFar| + |b| <= start + size <= |was|
    ensures Patch(Patch(was, k, soFar), k + |soFar|, b) == Patch(was, k, soFar + b)
  {
    hide Patch;
    PatchJoin(was, k, soFar, b);
  }

  lemma PatchWithin(was: seq<byte>, start: nat, size: nat, k: nat, b: seq<byte>)
    requires start <= k && k + |b| <= start + size <= |was|
    ensures OnlyWithin(was, Patch(was, k, b), start, size)
  {
  }

  /** Two items behind what was there are their concatenation behind it. */
  lemma Behind(w: seq<byte>, soFar: seq<byte>, b: seq<byte>)
    ensures (w + soFar) + b == w + (soFar + b)
  {
  }

  lemma Nothing(w: seq<byte>)
    ensures w + [] == w && [] + w == w
  {
  }

  lemma PatchNone(was: seq<byte>, k: nat)
    requires k <= |was|
    ensures Patch(was, k, []) == was
  {
  }

  class Encoder {
    const buf: array<byte>
    const base: nat
    const bufSz: nat
    var idx: nat
    /** The array, and the index, when writing began; what was written since. */
    ghost var was: seq<byte>
    ghost var from: nat
    ghost var written: seq<byte>

    ghost predicate Valid()
      reads this, buf
    {
      && base + bufSz <= buf.Length == |was|
      && idx == from + |written| <= bufSz
      && buf[..] == Patch(was, base + from, written)
    }

    /** Nothing outside the buffer of this context was written. */
    ghost predicate Confined()
      reads this, buf
    {
      base + bufSz <= buf.Length && OnlyWithin(was, buf[..], base, bufSz)
    }

    /** `wc_CBOR_EncoderInit` on the `size` bytes at `start`. */
    constructor (mem: array<byte>, start: nat, size: nat)
      requires start + size <= mem.Length
      ensures buf == mem && base == start && bufSz == size && idx == 0 && Valid()
      ensures was == mem[..] && from == 0 && written == []
    {
      buf := mem;
      base := start;
      bufSz := size;
      idx := 0;
      was := mem[..];
      from := 0;
      written := [];
      new;
      PatchNone(mem[..], start);
    }

    /** Goes on writing at another index. */
    method Seek(to: nat)
      requires base + bufSz <= buf.Length && to <= bufSz
      modifies this
      ensures Valid() && idx == from == to && written == [] && was == buf[..]
    {
      hide Patch;
      idx := to;
      was, from, written := buf[..], to, [];
      PatchNone(was, base + to);
    }

    /** What a valid context keeps. */
    lemma ValidIsConfined()
      requires Valid()
      ensures Confined()
    {
      hide Patch, OnlyWithin;
      PatchWithin(was, base, bufSz, base + from, written);
    }

    predicate HasRoom(need: nat)
      reads this
    {
      idx <= bufSz && need <= bufSz - idx
    }

    /** A context that was only written to: how the array was changed. */
    lemma Done()
      requires Valid()
      ensures base + from + |written| <= |was| && idx == from + |written| <= bufSz
      ensures buf[..] == Patch(was, base + from, written)
    {
      hide Patch;
    }

    /** A context that began at the start of its array: the array begins with what was written. */
    lemma DoneFromStart()
      requires Valid() && base == 0 && from == 0
      ensures idx == |written| <= buf.Length && buf[..idx] == written
    {
      hide Patch;
      Done();
      PatchPrefix(was, written);
      assert buf[..idx] == buf[..][..idx];
    }

    /** Records bytes that were stored at the index. */
    ghost method Record(b: seq<byte>, before: seq<byte>)
      requires base + bufSz <= buf.Length == |was| && idx == from + |written| + |b| <= bufSz
      requires before == Patch(was, base + from, written)
      requires buf[..] == Patch(before, base + from + |written|, b)
      modifies this`written
      ensures Valid() && written == old(written) + b
    {
      hide Patch;
      OneMore(was, base, bufSz, base + from, written, b);
      written := written + b;
    }

    /** Records bytes that stand at the index after work beyond them in the buffer: what is
        behind them there is from now on what was there when writing began. */
    ghost method Rebase(b: seq<byte>)
      requires base + bufSz <= buf.Length && idx == from + |written| + |b| <= bufSz
      requires buf[base + from..base + idx] == written + b
      modifies this`written, this`was
      ensures Valid() && written == old(written) + b
    {
      was := buf[..];
      written := written + b;
    }

    method EncodeHead(major: Major, val: u64) returns (ret: Status)
      requires Valid()
      modifies this`idx, this`written, buf
      ensures ret == if old(idx) + HeadSize(val) <= bufSz then Success else Fail(BufferTooSmall)
      ensures ret.Success? ==> written == old(written) + Cbor.EncodeHead(major, val) && idx == old(idx) + |Cbor.EncodeHead(major, val)|
      ensures ret.Fail? ==> idx == old(idx) && written == old(written)
      ensures Valid()
    {
      hide Cbor.EncodeHead, Patch;
      ghost var before := buf[..];
      ret := StoreHead(major, val);
      if ret.Success? {
        Record(Cbor.EncodeHead(major, val), before);
      }
    }

    /** Stores the bytes of a head at the index, in its shortest form. */
    method StoreHead(major: Major, val: u64) returns (ret: Status)
      requires base + bufSz <= buf.Length && idx <= bufSz
      modifies this`idx, buf
      ensures ret == if old(idx) + HeadSize(val) <= bufSz then Success else Fail(BufferTooSmall)
      ensures ret.Success? ==>
        idx == old(idx) + HeadSize(val) && base + idx <= buf.Length
        && buf[..] == Patch(old(buf[..]), base + old(idx), Cbor.EncodeHead(major, val))
      ensures ret.Fail? ==> idx == old(idx) && buf[..] == old(buf[..])
    {
      hide ToBE, Patch;
      var mt: byte := major * 32;
      ghost var before := buf[..];
      var k := base + idx;
      ret := Success;
      if val <= 23 {
        if !HasRoom(1) {
          return Fail(BufferTooSmall);
        }
        buf[k] := mt + val;
        PatchIs(buf[..], before, k, [mt + val]);
        NoArgument(mt + val, val);
        idx := idx + 1;
      } else if val <= 0xFF {
        if !HasRoom(2) {
          return Fail(BufferTooSmall);
        }
        buf[k] := mt + 24;
        buf[k + 1] := val;
        PatchIs(buf[..], before, k, [mt + 24, val]);
        ByteArgument(mt + 24, val);
        idx := idx + 2;
      } else if val <= 0xFFFF {
        if !HasRoom(3) {
          return Fail(BufferTooSmall);
        }
        buf[k] := mt + 25;
        PatchIs(buf[..], before, k, [mt + 25]);
        StoreBE16(buf, k + 1, val);
        PatchJoin(before, k, [mt + 25], ToBE(val, 2));
        idx := idx + 3;
      } else if val <= 0xFFFF_FFFF {
        if !HasRoom(5) {
          return Fail(BufferTooSmall);
        }
        buf[k] := mt + 26;
        PatchIs(buf[..], before, k, [mt + 26]);
        StoreBE32(buf, k + 1, val);
        PatchJoin(before, k, [mt + 26], ToBE(val, 4));
        idx := idx + 5;
      } else {
        if !HasRoom(9) {
          return Fail(BufferTooSmall);
        }
        buf[k] := mt + 27;
        PatchIs(buf[..], before, k, [mt + 27]);
        StoreBE64(buf, k + 1, val);
        PatchJoin(before, k, [mt + 27], ToBE(val, 8));
        idx := idx + 9;
      }
    }

    method EncodeUint(val: u64) returns (ret: Status)
      requires Valid()
      modifies this`idx, this`written, buf
      ensures ret == if old(idx) + HeadSize(val) <= bufSz then Success else Fail(BufferTooSmall)
      ensures ret.Success? ==> written == old(written) + Cbor.EncodeHead(UINT, val) && idx == old(idx) + |Cbor.EncodeHead(UINT, val)|
      ensures ret.Fail? ==> idx == old(idx) && written == old(written)
      ensures Valid()
    {
      ret := EncodeHead(UINT, val);
    }

    method EncodeArrayStart(count: u64) returns (ret: Status)
      requires Valid()
      modifies this`idx, this`written, buf
      ensures ret == if old(idx) + HeadSize(count) <= bufSz then Success else Fail(BufferTooSmall)
      ensures ret.Success? ==> written == old(written) + Cbor.EncodeHead(ARRAY, count) && idx == old(idx) + |Cbor.EncodeHead(ARRAY, count)|
      ensures ret.Fail? ==> idx == old(idx) && written == old(written)
      ensures Valid()
    {
      ret := EncodeHead(ARRAY, count);
    }

    method EncodeMapStart(count: u64) returns (ret: Status)
      requires Valid()
      modifies this`idx, this`written, buf
      ensures ret == if old(idx) + HeadSize(count) <= bufSz then Success else Fail(BufferTooSmall)
      ensures ret.Success? ==> written == old(written) + Cbor.EncodeHead(MAP, count) && idx == old(idx) + |Cbor.EncodeHead(MAP, count)|
      ensures ret.Fail? ==> idx == old(idx) && written == old(written)
      ensures Valid()
    {
      ret := EncodeHead(MAP, count);
    }

    method EncodeTag(tag: u64) returns (ret: Status)
      requires Valid()
      modifies this`idx, this`written, buf
      ensures ret == if old(idx) + HeadSize(tag) <= bufSz then Success else Fail(BufferTooSmall)
      ensures ret.Success? ==> written == old(written) + Cbor.EncodeHead(TAG, tag) && idx == old(idx) + |Cbor.EncodeHead(TAG, tag)|
      ensures ret.Fail? ==> idx == old(idx) && written == old(written)
      ensures Valid()
    {
      ret := EncodeHead(TAG, tag);
    }

    method EncodeInt(val: i64) returns (ret: Status)
      requires Valid()
      modifies this`idx, this`written, buf
      ensures ret == if old(idx) + |CborRoundTrip.EncodeInt(val)| <= bufSz then Success else Fail(BufferTooSmall)
      ensures ret.Success? ==> written == old(written) + CborRoundTrip.EncodeInt(val) && idx == old(idx) + |CborRoundTrip.EncodeInt(val)|
      ensures ret.Fail? ==> idx == old(idx) && written == old(written)
      ensures Valid()
    {
      hide Cbor.EncodeHead, Patch, Valid;
      if val >= 0 {
        ret := EncodeHead(UINT, val);
      } else {
        ret := EncodeHead(NEGINT, -(val + 1));
      }
    }

    /** The encoder that byte and text strings share; when only the content does not
        fit, the head stays written. */
    method EncodeBytes(major: Major, data: seq<byte>) returns (ret: Status)
      requires Valid() && |data| <= SIZE_MAX
      modifies this`idx, this`written, buf
      ensures ret == if old(idx) + |EncodeString(major, data)| <= bufSz then Success else Fail(BufferTooSmall)
      ensures ret.Success? ==> written == old(written) + EncodeString(major, data) && idx == old(idx) + |EncodeString(major, data)|
      ensures Valid()
    {
      hide Cbor.EncodeHead, Patch;
      ret := EncodeHead(major, |data|);
      if ret.Success? {
        if |data| > bufSz - idx {
          return Fail(BufferTooSmall);
        }
        ghost var before := buf[..];
        Write(buf, base + idx, data);
        idx := idx + |data|;
        Record(data, before);
      }
    }

    method EncodeBstr(data: seq<byte>) returns (ret: Status)
      requires Valid() && |data| <= SIZE_MAX
      modifies this`idx, this`written, buf
      ensures ret == if old(idx) + |CborRoundTrip.EncodeBstr(data)| <= bufSz then Success else Fail(BufferTooSmall)
      ensures ret.Success? ==> written == old(written) + CborRoundTrip.EncodeBstr(data) && idx == old(idx) + |CborRoundTrip.EncodeBstr(data)|
      ensures Valid()
    {
      ret := EncodeBytes(BSTR, data);
    }

    method EncodeTstr(data: seq<byte>) returns (ret: Status)
      requires Valid() && |data| <= SIZE_MAX
      modifies this`idx, this`written, buf
      ensures ret == if !IsUtf8(data) then Fail(CborMalformed)
                     else if old(idx) + |CborRoundTrip.EncodeTstr(data)| <= bufSz then Success
                     else Fail(BufferTooSmall)
      ensures ret.Success? ==> written == old(written) + CborRoundTrip.EncodeTstr(data) && idx == old(idx) + |CborRoundTrip.EncodeTstr(data)|
      ensures Valid()
    {
      hide IsUtf8, Cbor.EncodeHead, EncodeString, Utf8.EncodeScalars, Valid;
      var ok := CheckUtf8(data);
      if !ok {
        return Fail(CborMalformed);
      }
      ret := EncodeBytes(TSTR, data);
    }

    /** What another function stores at the index, such as a cipher its output. */
    method Append(data: seq<byte>)
      requires Valid() && idx + |data| <= bufSz
      modifies this`idx, this`written, buf
      ensures written == old(written) + data && idx == old(idx) + |data|
      ensures Valid()
    {
      hide Patch;
      ghost var before := buf[..];
      Write(buf, base + idx, data);
      idx := idx + |data|;
      Record(data, before);
    }

    /** `wc_CBOR_EncodeNull`. */
    method EncodeNull() returns (ret: Status)
      requires Valid()
      modifies this`idx, this`written, buf
      ensures ret == if old(idx) + 1 <= bufSz then Success else Fail(BufferTooSmall)
      ensures ret.Success? ==> written == old(written) + [NULL_BYTE] && idx == old(idx) + |[NULL_BYTE]|
      ensures ret.Fail? ==> idx == old(idx) && written == old(written)
      ensures Valid()
    {
      if !HasRoom(1) {
        return Fail(BufferTooSmall);
      }
      ghost var before := buf[..];
      buf[base + idx] := NULL_BYTE;
      PatchIs(buf[..], before, base + idx, [NULL_BYTE]);
      idx := idx + 1;
      Record([NULL_BYTE], before);
      return Success;
    }
  }
}
