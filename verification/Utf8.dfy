/**
 The UTF-8 validator, and the definition of UTF-8 it is proved against: the
 concatenation of the encodings of Unicode scalar values (section 3 of RFC 3629).
 */
module Utf8 {
  import opened Wire

  /** A Unicode scalar value: a code point that is not a surrogate. */
  type Scalar = v: int | 0 <= v < 0xD800 || 0xE000 <= v <= 0x10FFFF

  function EncodeScalar(v: Scalar): (b: seq<byte>)
    ensures 1 <= |b| <= 4
  {
    if v < 0x80 then [v]
    else if v < 0x800 then [0xC0 + v / 64, 0x80 + v % 64]
    else if v < 0x1_0000 then [0xE0 + v / 4096, 0x80 + v / 64 % 64, 0x80 + v % 64]
    else [0xF0 + v / 262144, 0x80 + v / 4096 % 64, 0x80 + v / 64 % 64, 0x80 + v % 64]
  }

  function EncodeScalars(vs: seq<Scalar>): seq<byte> {
    if vs == [] then [] else EncodeScalar(vs[0]) + EncodeScalars(vs[1..])
  }

  predicate Continuation(b: byte) {
    0x80 <= b < 0xC0
  }

  /** The length of the code point that starts at `i`, or 0 when none does. */
  function CodePointLength(s: seq<byte>, i: nat): (n: nat)
    requires i < |s|
    ensures n <= 4 && i + n <= |s|
  {
    var first := s[i];
    var left := |s| - i - 1;
    if first <= 0x7F then 1
    else if 0xC2 <= first <= 0xDF then
      if left < 1 || !Continuation(s[i + 1]) then 0 else 2
    else if first == 0xE0 then
      if left < 2 || s[i + 1] < 0xA0 || s[i + 1] > 0xBF || !Continuation(s[i + 2]) then 0 else 3
    else if first == 0xED then
      if left < 2 || s[i + 1] < 0x80 || s[i + 1] > 0x9F || !Continuation(s[i + 2]) then 0 else 3
    else if 0xE1 <= first <= 0xEC || 0xEE <= first <= 0xEF then
      if left < 2 || !Continuation(s[i + 1]) || !Continuation(s[i + 2]) then 0 else 3
    else if first == 0xF0 then
      if left < 3 || s[i + 1] < 0x90 || s[i + 1] > 0xBF
         || !Continuation(s[i + 2]) || !Continuation(s[i + 3]) then 0 else 4
    else if first == 0xF4 then
      if left < 3 || s[i + 1] < 0x80 || s[i + 1] > 0x8F
         || !Continuation(s[i + 2]) || !Continuation(s[i + 3]) then 0 else 4
    else if 0xF1 <= first <= 0xF3 then
      if left < 3 || !Continuation(s[i + 1])
         || !Continuation(s[i + 2]) || !Continuation(s[i + 3]) then 0 else 4
    else 0
  }

  predicate Utf8From(s: seq<byte>, i: nat)
    requires i <= |s|
    decreases |s| - i
  {
    i == |s| || (CodePointLength(s, i) > 0 && Utf8From(s, i + CodePointLength(s, i)))
  }

  predicate IsUtf8(s: seq<byte>) {
    Utf8From(s, 0)
  }

  /** The validator as the library runs it: one loop over an index. */
  method CheckUtf8(data: seq<byte>) returns (ok: bool)
    ensures ok <==> IsUtf8(data)
    ensures ok <==> exists vs :: data == EncodeScalars(vs)
  {
    ok := true;
    var i := 0;
    while i < |data| && ok
      invariant i <= |data|
      invariant IsUtf8(data) <==> ok && Utf8From(data, i)
      decreases |data| - i, ok
    {
      var n := CodePointLength(data, i);
      if n == 0 {
        ok := false;
      } else {
        i := i + n;
      }
    }
    Utf8Sound(data);
    if exists vs :: data == EncodeScalars(vs) {
      var vs :| data == EncodeScalars(vs);
      Utf8Complete(vs);
    }
  }

  /** The scalar value encoded at `i`. */
  ghost function ScalarAt(s: seq<byte>, i: nat): (v: Scalar)
    requires i < |s| && CodePointLength(s, i) > 0
    ensures EncodeScalar(v) == s[i..i + CodePointLength(s, i)]
  {
    var n := CodePointLength(s, i);
    var part := s[i..i + n];
    assert part[0] == s[i] && (n > 1 ==> part[1] == s[i + 1])
           && (n > 2 ==> part[2] == s[i + 2]) && (n > 3 ==> part[3] == s[i + 3]);
    if n == 1 then s[i]
    else if n == 2 then (s[i] - 0xC0) * 64 + (s[i + 1] - 0x80)
    else if n == 3 then ThreeBytes(s[i], s[i + 1], s[i + 2])
    else FourBytes(s[i], s[i + 1], s[i + 2], s[i + 3])
  }

  ghost function ThreeBytes(a: byte, b: byte, c: byte): (v: Scalar)
    requires 0xE0 <= a < 0xF0 && Continuation(b) && Continuation(c)
    requires a == 0xE0 ==> b >= 0xA0
    requires a == 0xED ==> b <= 0x9F
    ensures EncodeScalar(v) == [a, b, c]
  {
    var hi := (a - 0xE0) * 64 + (b - 0x80);
    var v := hi * 64 + (c - 0x80);
    assert v / 64 == hi && v % 64 == c - 0x80 && v / 4096 == a - 0xE0 && hi % 64 == b - 0x80;
    v
  }

  ghost function FourBytes(a: byte, b: byte, c: byte, d: byte): (v: Scalar)
    requires 0xF0 <= a <= 0xF4 && Continuation(b) && Continuation(c) && Continuation(d)
    requires a == 0xF0 ==> b >= 0x90
    requires a == 0xF4 ==> b <= 0x8F
    ensures EncodeScalar(v) == [a, b, c, d]
  {
    var top := (a - 0xF0) * 64 + (b - 0x80);
    var hi := top * 64 + (c - 0x80);
    var v := hi * 64 + (d - 0x80);
    assert v / 64 == hi && v % 64 == d - 0x80;
    Nested(v, hi, top);
    assert v / 4096 == top && v / 262144 == a - 0xF0;
    assert hi % 64 == c - 0x80 && top % 64 == b - 0x80;
    v
  }

  lemma Nested(v: nat, hi: nat, top: nat)
    requires hi == v / 64 && top == hi / 64
    ensures v / 4096 == top && v / 262144 == top / 64
  {
  }

  /** The validator finds an encoded scalar value, whatever follows it. */
  lemma CodePointOfScalar(v: Scalar, s: seq<byte>, i: nat)
    requires i + |EncodeScalar(v)| <= |s|
    requires s[i..i + |EncodeScalar(v)|] == EncodeScalar(v)
    ensures CodePointLength(s, i) == |EncodeScalar(v)|
  {
    var b := EncodeScalar(v);
    assert forall k {:trigger b[k]} :: 0 <= k < |b| ==> s[i..i + |b|][k] == b[k];
    assert s[i] == b[0];
    if |b| > 1 { assert s[i + 1] == b[1]; }
    if |b| > 2 { assert s[i + 2] == b[2]; }
    if |b| > 3 { assert s[i + 3] == b[3]; }
  }

  lemma {:induction false} SoundFrom(s: seq<byte>, i: nat) returns (vs: seq<Scalar>)
    requires i <= |s| && Utf8From(s, i)
    ensures s[i..] == EncodeScalars(vs)
    decreases |s| - i
  {
    hide CodePointLength, EncodeScalar;
    if i == |s| {
      vs := [];
    } else {
      var n := CodePointLength(s, i);
      var rest := SoundFrom(s, i + n);
      vs := [ScalarAt(s, i)] + rest;
      assert vs[1..] == rest;
      assert s[i..] == s[i..i + n] + s[i + n..];
    }
  }

  lemma Utf8Sound(s: seq<byte>)
    ensures IsUtf8(s) ==> exists vs :: s == EncodeScalars(vs)
  {
    if IsUtf8(s) {
      var vs := SoundFrom(s, 0);
      assert s[0..] == s;
    }
  }

  lemma {:induction false} CompleteFrom(s: seq<byte>, i: nat, vs: seq<Scalar>)
    requires i <= |s| && s[i..] == EncodeScalars(vs)
    ensures Utf8From(s, i)
    decreases |vs|
  {
    if vs != [] {
      hide EncodeScalar, CodePointLength, Utf8From;
      var b, rest := EncodeScalar(vs[0]), EncodeScalars(vs[1..]);
      assert s[i..] == b + rest;
      hide EncodeScalars;
      TakeDrop(s, i, b, rest);
      CodePointOfScalar(vs[0], s, i);
      CompleteFrom(s, i + |b|, vs[1..]);
      FromNext(s, i);
    }
  }

  lemma TakeDrop(s: seq<byte>, i: nat, b: seq<byte>, rest: seq<byte>)
    requires i <= |s| && s[i..] == b + rest
    ensures i + |b| <= |s| && s[i..i + |b|] == b && s[i + |b|..] == rest
  {
    assert |s| - i == |b| + |rest|;
    assert s[i..][..|b|] == b && s[i..][|b|..] == rest;
  }

  lemma FromNext(s: seq<byte>, i: nat)
    requires i < |s| && CodePointLength(s, i) > 0 && Utf8From(s, i + CodePointLength(s, i))
    ensures Utf8From(s, i)
  {
    hide CodePointLength;
  }

  lemma Utf8Complete(vs: seq<Scalar>)
    ensures IsUtf8(EncodeScalars(vs))
  {
    var s := EncodeScalars(vs);
    assert s[0..] == s;
    CompleteFrom(s, 0, vs);
  }

  /** The bits of a scalar value, read back from its encoding. */
  lemma ScalarBits(v: Scalar, b: seq<byte>)
    requires b == EncodeScalar(v)
    ensures |b| == 1 ==> v == b[0]
    ensures |b| == 2 ==> v == 64 * (b[0] as int) + (b[1] as int) - 0x3080
    ensures |b| == 3 ==> v == 4096 * (b[0] as int) + 64 * (b[1] as int) + (b[2] as int) - 0xE_2080
    ensures |b| == 4 ==> v == 262144 * (b[0] as int) + 4096 * (b[1] as int) + 64 * (b[2] as int) + (b[3] as int) - 0x3C8_2080
  {
    Nested(v, v / 64, v / 64 / 64);
  }

  lemma EncodeScalarInjective(v: Scalar, w: Scalar)
    requires EncodeScalar(v) == EncodeScalar(w)
    ensures v == w
  {
    ScalarBits(v, EncodeScalar(v));
    ScalarBits(w, EncodeScalar(v));
  }

  /** A text has one decomposition into scalar values. */
  lemma {:induction false} DecompositionUnique(vs: seq<Scalar>, ws: seq<Scalar>)
    requires EncodeScalars(vs) == EncodeScalars(ws)
    ensures vs == ws
  {
    if vs == [] || ws == [] {
      assert |vs| > 0 ==> |EncodeScalars(vs)| > 0;
      assert |ws| > 0 ==> |EncodeScalars(ws)| > 0;
    } else {
      var s := EncodeScalars(vs);
      var b, c := EncodeScalar(vs[0]), EncodeScalar(ws[0]);
      assert s[0..|b|] == b && s[0..|c|] == c;
      CodePointOfScalar(vs[0], s, 0);
      CodePointOfScalar(ws[0], s, 0);
      EncodeScalarInjective(vs[0], ws[0]);
      assert EncodeScalars(vs[1..]) == s[|b|..] == EncodeScalars(ws[1..]);
      DecompositionUnique(vs[1..], ws[1..]);
    }
  }
}
