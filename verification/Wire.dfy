/**
 Bytes, status codes, decode results and big-endian integers: what every other
 module of this model builds on.
 */
module Wire {

  type byte = b: int | 0 <= b < 256

  const U64_BOUND: int := 0x1_0000_0000_0000_0000
  const INT64_MAX: int := 0x7FFF_FFFF_FFFF_FFFF
  const INT32_MAX: int := 0x7FFF_FFFF
  const WORD32_MAX: int := 0xFFFF_FFFF
  const SIZE_MAX: int := 0xFFFF_FFFF_FFFF_FFFF

  type u64 = n: int | 0 <= n < U64_BOUND
  type i64 = n: int | -INT64_MAX - 1 <= n <= INT64_MAX

  /** The status codes the modelled functions return, success apart. */
  datatype Error =
    | InvalidArg
    | BufferTooSmall
    | CborMalformed
    | CborType
    | CborOverflow
    | CborDepth
    | CoseBadTag
    | CoseBadAlg
    | CoseBadHdr
    | CoseKeyType
    | Crypto
    | Unsupported
    | MacFail
    | DetachedPayload
    | EatPsaClaim
    | EatPsaProfile
    | External(code: int)

  /** A status: what a C function returns when it returns nothing else. */
  datatype Status = Success | Fail(error: Error)

  /** The result of decoding: a value and the index just past it, or the error. */
  datatype Dec<+T> = Ok(value: T, next: nat) | Err(error: Error)
  {
    predicate IsFailure() {
      Err?
    }

    function PropagateFailure<U>(): Dec<U>
      requires Err?
    {
      Err(error)
    }

    function Extract(): (T, nat)
      requires Ok?
    {
      (value, next)
    }

    function Status(): Status {
      if Ok? then Success else Fail(error)
    }
  }

  datatype Option<+T> = None | Some(value: T)

  /** `s[i..i+n]` and `t[j..j+n]` are the same bytes, both in bounds. */
  ghost predicate SameSlice(s: seq<byte>, i: nat, t: seq<byte>, j: nat, n: nat) {
    i + n <= |s| && j + n <= |t| && s[i..i + n] == t[j..j + n]
  }

  lemma SameSliceBound(s: seq<byte>, i: nat, t: seq<byte>, j: nat, n: nat)
    requires SameSlice(s, i, t, j, n)
    ensures i + n <= |s| && j + n <= |t|
  {
  }

  /** A slice on its own has the same bytes. */
  lemma WholeSlice(s: seq<byte>, i: nat, e: nat)
    requires i <= e <= |s|
    ensures SameSlice(s, i, s[i..e], 0, e - i)
  {
    assert s[i..e][0..e - i] == s[i..e];
  }

  lemma SameSliceAt(s: seq<byte>, i: nat, t: seq<byte>, j: nat, n: nat, k: nat)
    requires SameSlice(s, i, t, j, n) && k < n
    ensures s[i + k] == t[j + k]
  {
    assert s[i + k] == s[i..i + n][k] == t[j..j + n][k] == t[j + k];
  }

  lemma SubSlice<T>(s: seq<T>, lo: nat, hi: nat, a: nat, b: nat)
    requires lo <= hi <= |s| && a <= b <= hi - lo
    ensures s[lo..hi][a..b] == s[lo + a..lo + b]
  {
    var part := s[lo..hi];
    forall k | 0 <= k < b - a
      ensures part[a..b][k] == s[lo + a..lo + b][k]
    {
      assert part[a..b][k] == part[a + k] == s[lo + (a + k)];
    }
  }

  lemma SliceCons<T>(s: seq<T>, lo: nat, hi: nat)
    requires lo < hi <= |s|
    ensures s[lo..hi] == [s[lo]] + s[lo + 1..hi]
  {
  }

  lemma SliceSplit<T>(s: seq<T>, lo: nat, mid: nat, hi: nat)
    requires lo <= mid <= hi <= |s|
    ensures s[lo..hi] == s[lo..mid] + s[mid..hi]
  {
  }

  /** A part of a shared slice is shared. */
  lemma SameSlicePart(s: seq<byte>, i: nat, t: seq<byte>, j: nat, n: nat, a: nat, m: nat)
    requires SameSlice(s, i, t, j, n) && a + m <= n
    ensures SameSlice(s, i + a, t, j + a, m)
  {
    SubSlice(s, i, i + n, a, a + m);
    SubSlice(t, j, j + n, a, a + m);
  }

  // ----- Big-endian integers -----

  function Pow256(k: nat): (p: nat)
    ensures p >= 1
  {
    if k == 0 then 1 else 256 * Pow256(k - 1)
  }

  /** The `k` low-order bytes of `v`, most significant first. */
  function ToBE(v: nat, k: nat): (b: seq<byte>)
    ensures |b| == k
  {
    if k == 0 then [] else ToBE(v / 256, k - 1) + [v % 256]
  }

  function FromBE(b: seq<byte>): (v: nat)
    ensures v < Pow256(|b|)
  {
    if b == [] then 0 else FromBE(b[..|b| - 1]) * 256 + b[|b| - 1]
  }

  lemma {:induction false} FromToBE(v: nat, k: nat)
    requires v < Pow256(k)
    ensures FromBE(ToBE(v, k)) == v
  {
    if k > 0 {
      FromToBE(v / 256, k - 1);
      assert ToBE(v, k)[..k - 1] == ToBE(v / 256, k - 1);
    }
  }

  lemma {:induction false} ToFromBE(b: seq<byte>)
    ensures ToBE(FromBE(b), |b|) == b
  {
    if b != [] {
      ToFromBE(b[..|b| - 1]);
      assert b == b[..|b| - 1] + [b[|b| - 1]];
    }
  }

  lemma Pow256Values()
    ensures Pow256(0) == 1 && Pow256(1) == 0x100 && Pow256(2) == 0x1_0000
    ensures Pow256(4) == 0x1_0000_0000 && Pow256(8) == U64_BOUND
  {
    assert Pow256(3) == 0x100_0000;
    assert Pow256(5) == 0x100_0000_0000;
    assert Pow256(6) == 0x1_0000_0000_0000;
    assert Pow256(7) == 0x100_0000_0000_0000;
  }
}
