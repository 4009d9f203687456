/**
 Checked size arithmetic: every addition that a size query makes refuses to wrap.
 */
module Sizes {
  import opened Wire
  import opened Cbor

  /** The size of a byte or text string of `len` bytes. */
  function StringSize(len: nat): (n: nat)
    requires len < U64_BOUND
    ensures len < n <= len + 9
  {
    HeadSize(len) + len
  }

  /** `wolfCose_SizeAdd`. */
  method SizeAdd(total: nat, add: nat) returns (ret: Status, sum: nat)
    requires total <= SIZE_MAX
    ensures ret == if total + add <= SIZE_MAX then Success else Fail(InvalidArg)
    ensures sum == if ret.Success? then total + add else total
  {
    if add > SIZE_MAX - total {
      return Fail(InvalidArg), total;
    }
    return Success, total + add;
  }

  /** `wolfCose_CborHeadSize`: the size of the head that the encoder writes. */
  method CborHeadSize(val: u64) returns (len: nat)
    ensures forall major: Major :: len == |EncodeHead(major, val)|
    ensures len == HeadSize(val)
  {
    if val <= 23 {
      len := 1;
    } else if val <= 0xFF {
      len := 2;
    } else if val <= 0xFFFF {
      len := 3;
    } else if val <= 0xFFFF_FFFF {
      len := 5;
    } else {
      len := 9;
    }
  }

  /** `wolfCose_CborStringSize`. */
  method CborStringSize(len: nat) returns (ret: Status, encodedLen: nat)
    requires len <= SIZE_MAX
    ensures ret == if StringSize(len) <= SIZE_MAX then Success else Fail(InvalidArg)
    ensures ret.Success? ==> encodedLen == StringSize(len)
  {
    var total := CborHeadSize(len);
    ret, encodedLen := SizeAdd(total, len);
  }
}
