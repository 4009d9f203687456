/**
 Caller memory: parts of arrays, moves between them that may overlap, and the
 test for overlapping ranges.
 */
module Memory {
  import opened Wire

  /** `a` with the bytes from `k` on replaced by `b`. */
  function Patch(a: seq<byte>, k: nat, b: seq<byte>): (r: seq<byte>)
    requires k + |b| <= |a|
    ensures |r| == |a|
  {
    a[..k] + b + a[k + |b|..]
  }

  /** What a patch is made of. */
  lemma PatchParts(a: seq<byte>, k: nat, b: seq<byte>)
    requires k + |b| <= |a|
    ensures var r := Patch(a, k, b);
      && r[k..k + |b|] == b
      && (forall i {:trigger r[i]} :: 0 <= i < |a| && (i < k || k + |b| <= i) ==> r[i] == a[i])
  {
  }

  lemma PatchIs(r: seq<byte>, a: seq<byte>, k: nat, b: seq<byte>)
    requires k + |b| <= |a| == |r|
    requires forall i {:trigger r[i]} :: 0 <= i < |a| ==> r[i] == if k <= i < k + |b| then b[i - k] else a[i]
    ensures r == Patch(a, k, b)
  {
  }

  lemma PatchPrefix(a: seq<byte>, b: seq<byte>)
    requires |b| <= |a|
    ensures Patch(a, 0, b)[..|b|] == b
  {
    PatchParts(a, 0, b);
    assert Patch(a, 0, b)[..|b|] == Patch(a, 0, b)[0..|b|];
  }

  /** A write over everything. */
  lemma PatchAll(a: seq<byte>, b: seq<byte>)
    requires |a| == |b|
    ensures Patch(a, 0, b) == b
  {
  }

  /** A slice that a patch does not touch. */
  lemma PatchElsewhere(a: seq<byte>, k: nat, b: seq<byte>, i: nat, j: nat)
    requires k + |b| <= |a| && i <= j <= |a| && (j <= k || k + |b| <= i)
    ensures Patch(a, k, b)[i..j] == a[i..j]
  {
    hide Patch;
    PatchParts(a, k, b);
    forall n | 0 <= n < j - i
      ensures Patch(a, k, b)[i..j][n] == a[i..j][n]
    {
      assert Patch(a, k, b)[i + n] == a[i + n];
    }
  }

  /** A patch in front of a patch, and one in front of bytes that are there already. */
  lemma PatchInFront(a: seq<byte>, k: nat, h: seq<byte>, b: seq<byte>)
    requires k + |h| + |b| <= |a|
    ensures Patch(Patch(a, k + |h|, b), k, h) == Patch(a, k, h + b)
    ensures a[k + |h|..k + |h| + |b|] == b ==> Patch(a, k, h) == Patch(a, k, h + b)
  {
    if a[k + |h|..k + |h| + |b|] == b {
      assert a[k + |h|..] == b + a[k + |h| + |b|..];
    }
  }

  /** A patch next to a patch is one patch. */
  lemma PatchJoin(a: seq<byte>, k: nat, b: seq<byte>, c: seq<byte>)
    requires k + |b| + |c| <= |a|
    ensures Patch(Patch(a, k, b), k + |b|, c) == Patch(a, k, b + c)
  {
  }

  /** `XMEMMOVE` within one buffer: the ranges may overlap. */
  method MemMove(a: array<byte>, dst: nat, src: nat, len: nat)
    requires dst + len <= a.Length && src + len <= a.Length
    modifies a
    ensures a[..] == Patch(old(a[..]), dst, old(a[src..src + len]))
  {
    if dst <= src {
      var i := 0;
      while i < len
        invariant 0 <= i <= len
        invariant forall k {:trigger a[k]} :: 0 <= k < a.Length ==>
          a[k] == if dst <= k < dst + i then old(a[src + (k - dst)]) else old(a[k])
      {
        a[dst + i] := a[src + i];
        i := i + 1;
      }
    } else {
      var i := len;
      while i > 0
        invariant 0 <= i <= len
        invariant forall k {:trigger a[k]} :: 0 <= k < a.Length ==>
          a[k] == if dst + i <= k < dst + len then old(a[src + (k - dst)]) else old(a[k])
      {
        i := i - 1;
        a[dst + i] := a[src + i];
      }
    }
    PatchIs(a[..], old(a[..]), dst, old(a[src..src + len]));
  }

  function Zeros(n: nat): (z: seq<byte>)
    ensures |z| == n
  {
    seq(n, _ => 0)
  }

  /** `XMEMSET` to zero. */
  method Zero(a: array<byte>, at: nat, n: nat)
    requires at + n <= a.Length
    modifies a
    ensures a[..] == Patch(old(a[..]), at, Zeros(n))
  {
    var i := 0;
    while i < n
      invariant 0 <= i <= n
      invariant forall k {:trigger a[k]} :: 0 <= k < a.Length ==> a[k] == if at <= k < at + i then 0 else old(a[k])
    {
      a[at + i] := 0;
      i := i + 1;
    }
    PatchIs(a[..], old(a[..]), at, Zeros(n));
  }

  /** The way out of a call that makes a message: scratch is erased, and the output if it failed. */
  method EraseAfter(ret: Status, scratch: array<byte>, out: array<byte>)
    requires scratch != out
    modifies scratch, out
    ensures scratch[..] == Zeros(scratch.Length)
    ensures out[..] == if ret.Success? then old(out[..]) else Zeros(out.Length)
  {
    ghost var was, outWas := scratch[..], out[..];
    Zero(scratch, 0, scratch.Length);
    PatchAll(was, Zeros(scratch.Length));
    if ret.Fail? {
      Zero(out, 0, out.Length);
      PatchAll(outWas, Zeros(out.Length));
    }
  }

  /** A write of `data` at `at`. */
  method Write(a: array<byte>, at: nat, data: seq<byte>)
    requires at + |data| <= a.Length
    modifies a
    ensures a[..] == Patch(old(a[..]), at, data)
  {
    var i := 0;
    while i < |data|
      invariant 0 <= i <= |data|
      invariant forall k {:trigger a[k]} :: 0 <= k < a.Length ==>
        a[k] == if at <= k < at + i then data[k - at] else old(a[k])
    {
      a[at + i] := data[i];
      i := i + 1;
    }
    PatchIs(a[..], old(a[..]), at, data);
  }

  /** A caller's buffer: `len` bytes of `mem` from `off` on. */
  datatype Span = Span(mem: array<byte>, off: nat, len: nat)
  {
    ghost predicate Valid()
    {
      off + len <= mem.Length
    }

    function Bytes(): (b: seq<byte>)
      requires Valid()
      reads mem
      ensures |b| == len
    {
      mem[off..off + len]
    }

    predicate Holds(k: int) {
      off <= k < off + len
    }

    /** The two buffers share a byte. */
    ghost predicate Overlaps(that: Span) {
      mem == that.mem && exists k :: Holds(k) && that.Holds(k)
    }

    /** The same pointer. */
    predicate SameStart(that: Span) {
      mem == that.mem && off == that.off
    }
  }

  /** `wolfCose_RangesOverlap`: compares the address of every byte of one range
      with the start of the other. */
  method RangesOverlap(a: Span, b: Span) returns (overlaps: bool)
    ensures overlaps <==> a.Overlaps(b)
  {
    overlaps := false;
    if a.len != 0 && b.len != 0 {
      var i := 0;
      while i < a.len && !overlaps
        invariant 0 <= i <= a.len
        invariant overlaps <==> a.mem == b.mem && a.off <= b.off < a.off + i
      {
        if a.mem == b.mem && a.off + i == b.off {
          overlaps := true;
        }
        i := i + 1;
      }
      ghost var first := overlaps;
      i := 0;
      while i < b.len && !overlaps
        invariant 0 <= i <= b.len
        invariant overlaps <==> first || (a.mem == b.mem && b.off <= a.off < b.off + i)
      {
        if a.mem == b.mem && b.off + i == a.off {
          overlaps := true;
        }
        i := i + 1;
      }
      if overlaps {
        var k := if first then b.off else a.off;
        assert a.Holds(k) && b.Holds(k);
      }
    }
  }
}
