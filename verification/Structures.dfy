/**
 The structures that are signed, authenticated or used as additional data (sections
 4.4, 5.3 and 6.3 of RFC 9052, section 3.3 of RFC 9338): equal bytes mean equal contexts
 and equal fields, so no two uses can be confused.
 */
module Structures {
  import opened Wire
  import opened Utf8
  import opened Memory
  import opened Cbor
  import opened CborRoundTrip
  import opened CborEncoder
  import opened Countersign
  import opened CountersignVerify
  import opened CountersignBuild

  /** Bytes that fit in memory. */
  type Field = b: seq<byte> | |b| <= SIZE_MAX

  const CONTEXT_SIGN1 := AsciiBytes("Signature1")
  const CONTEXT_SIGN := AsciiBytes("Signature")
  const CONTEXT_MAC0 := AsciiBytes("MAC0")
  const CONTEXT_MAC := AsciiBytes("MAC")
  const CONTEXT_ENCRYPT0 := AsciiBytes("Encrypt0")
  const CONTEXT_ENCRYPT := AsciiBytes("Encrypt")

  // ----- What is written -----

  /** Byte strings in a row. */
  function FieldBytes(fs: seq<Field>): (b: seq<byte>) {
    if fs == [] then [] else EncodeBstr(fs[0]) + FieldBytes(fs[1..])
  }

  /** An array of a context string and byte strings, with `tail` as what else it holds. */
  function StructureBytes(context: Field, fs: seq<Field>, extra: nat, tail: seq<byte>): (b: seq<byte>)
    requires 1 + |fs| + extra < U64_BOUND
  {
    EncodeHead(ARRAY, 1 + |fs| + extra) + EncodeTstr(context) + FieldBytes(fs) + tail
  }

  /** A Sig_structure or MAC_structure; only that of COSE_Sign has the signer's bucket. */
  function ToBeSignedMaced(context: Field, bodyProtected: Field, signProtected: Option<Field>, extAad: Field,
                           payload: Field): (b: seq<byte>)
  {
    EncodeHead(ARRAY, if signProtected.Some? then 5 else 4) + EncodeTstr(context) + EncodeBstr(bodyProtected)
    + (if signProtected.Some? then EncodeBstr(signProtected.value) else []) + EncodeBstr(extAad) + EncodeBstr(payload)
  }

  /** An Enc_structure. */
  function EncStructure(context: Field, bodyProtected: Field, extAad: Field): (b: seq<byte>) {
    EncodeHead(ARRAY, 3) + EncodeTstr(context) + EncodeBstr(bodyProtected) + EncodeBstr(extAad)
  }

  /** The fields of a Sig_structure or MAC_structure. */
  function SignedFields(bodyProtected: Field, signProtected: Option<Field>, extAad: Field, payload: Field)
    : (fs: seq<Field>)
  {
    if signProtected.Some? then [bodyProtected, signProtected.value, extAad, payload]
    else [bodyProtected, extAad, payload]
  }

  // ----- The builders -----

  /** `wolfCose_BuildToBeSignedMaced`, into `size` bytes of `scratch` from `start` on. */
  method BuildToBeSignedMaced(context: Field, bodyProtected: Field, signProtected: Option<Field>, extAad: Field,
                              payload: Field, scratch: array<byte>, start: nat, size: nat)
    returns (ret: Status, structLen: nat)
    requires start + size <= scratch.Length
    modifies scratch
    ensures var tbs := ToBeSignedMaced(context, bodyProtected, signProtected, extAad, payload);
      && (IsUtf8(context) ==> ret == (if |tbs| <= size then Success else Fail(BufferTooSmall)))
      && (!IsUtf8(context) ==> ret.Fail?)
      && (ret.Success? ==> structLen == |tbs| && scratch[..] == Patch(old(scratch[..]), start, tbs))
    ensures OnlyWithin(old(scratch[..]), scratch[..], start, size)
  {
    hide EncodeHead, EncodeBstr, EncodeTstr, Patch, IsUtf8, Encoder.Valid, HeadSize, OnlyWithin;
    structLen := 0;
    var arrayLen := if signProtected.Some? then 5 else 4;
    var ctx := new Encoder(scratch, start, size);
    ret := BuildCounterFront(ctx, context, arrayLen, bodyProtected, signProtected);
    if ret.Success? {
      ret := ctx.EncodeBstr(extAad);
    }
    if ret.Success? {
      ret := ctx.EncodeBstr(payload);
    }
    ctx.ValidIsConfined();
    ctx.Done();
    if ret.Success? {
      structLen := ctx.idx;
    }
  }

  /** `wolfCose_BuildEncStructure`. */
  method BuildEncStructure(context: Field, bodyProtected: Field, extAad: Field, scratch: array<byte>, start: nat, size: nat)
    returns (ret: Status, structLen: nat)
    requires start + size <= scratch.Length
    modifies scratch
    ensures var aad := EncStructure(context, bodyProtected, extAad);
      && (IsUtf8(context) ==> ret == (if |aad| <= size then Success else Fail(BufferTooSmall)))
      && (!IsUtf8(context) ==> ret.Fail?)
      && (ret.Success? ==> structLen == |aad| && scratch[..] == Patch(old(scratch[..]), start, aad))
    ensures OnlyWithin(old(scratch[..]), scratch[..], start, size)
  {
    hide EncodeHead, EncodeBstr, EncodeTstr, Patch, IsUtf8, Encoder.Valid, HeadSize, OnlyWithin;
    structLen := 0;
    var ctx := new Encoder(scratch, start, size);
    Nothing(EncodeHead(ARRAY, 3));
    ret := ctx.EncodeArrayStart(3);
    if ret.Success? {
      ret := ctx.EncodeTstr(context);
    }
    if ret.Success? {
      ret := ctx.EncodeBstr(bodyProtected);
    }
    if ret.Success? {
      ret := ctx.EncodeBstr(extAad);
    }
    ctx.ValidIsConfined();
    ctx.Done();
    if ret.Success? {
      structLen := ctx.idx;
    }
  }

  // ----- Unique reading -----

  lemma Prefix(p: seq<byte>, q: seq<byte>, b: seq<byte>, i: nat)
    requires i + |p| + |q| <= |b| && b[i..] == p + q
    ensures SameSlice(p, 0, b, i, |p|) && b[i + |p|..] == q
  {
    SubSlice(b, i, |b|, 0, |p|);
    SubSlice(b, i, |b|, |p|, |p| + |q|);
    assert b[i..] == b[i..|b|] && (p + q)[0..|p|] == p[0..|p|] && (p + q)[|p|..|p| + |q|] == q;
    assert b[i + |p|..] == b[i + |p|..i + |p| + |q|];
  }

  /** A byte string in front of something is read in one way. */
  lemma BstrFirst(f: Field, x: seq<byte>, b: seq<byte>, i: nat)
    requires i <= |b| && b[i..] == EncodeBstr(f) + x
    ensures DecodeHead(b, i, true) == Ok(Item(BSTR, |f|, f), i + |EncodeBstr(f)|)
    ensures i + |EncodeBstr(f)| <= |b| && b[i + |EncodeBstr(f)|..] == x
  {
    hide EncodeString, DecodeHead, SameSlice;
    assert |b[i..]| == |b| - i;
    Prefix(EncodeBstr(f), x, b, i);
    StringRoundTrip(BSTR, f, true, b, i);
  }

  /** Byte strings in a row are read in one way, when it is known how many there are. */
  lemma {:induction false} FieldsUnique(fs: seq<Field>, x: seq<byte>, gs: seq<Field>, y: seq<byte>, b: seq<byte>, i: nat)
    requires |fs| == |gs| && i <= |b| && b[i..] == FieldBytes(fs) + x && b[i..] == FieldBytes(gs) + y
    ensures fs == gs && x == y
    decreases |fs|
  {
    hide EncodeBstr, DecodeHead;
    if fs == [] {
      assert FieldBytes(fs) + x == x && FieldBytes(gs) + y == y;
    } else {
      assert b[i..] == EncodeBstr(fs[0]) + (FieldBytes(fs[1..]) + x);
      assert b[i..] == EncodeBstr(gs[0]) + (FieldBytes(gs[1..]) + y);
      BstrFirst(fs[0], FieldBytes(fs[1..]) + x, b, i);
      BstrFirst(gs[0], FieldBytes(gs[1..]) + y, b, i);
      FieldsUnique(fs[1..], x, gs[1..], y, b, i + |EncodeBstr(fs[0])|);
      assert fs == [fs[0]] + fs[1..] && gs == [gs[0]] + gs[1..];
    }
  }

  /** The array head and the context string are read in one way. */
  lemma FrontUnique(n: u64, context: Field, x: seq<byte>, m: u64, context': Field, y: seq<byte>)
    requires IsUtf8(context) && IsUtf8(context')
    requires EncodeHead(ARRAY, n) + EncodeTstr(context) + x == EncodeHead(ARRAY, m) + EncodeTstr(context') + y
    ensures n == m && context == context' && x == y
  {
    hide EncodeHead, EncodeString, DecodeHead, SameSlice, IsUtf8, HeadSize;
    var b := EncodeHead(ARRAY, n) + EncodeTstr(context) + x;
    assert b[0..] == EncodeHead(ARRAY, n) + (EncodeTstr(context) + x);
    assert b[0..] == EncodeHead(ARRAY, m) + (EncodeTstr(context') + y);
    Prefix(EncodeHead(ARRAY, n), EncodeTstr(context) + x, b, 0);
    Prefix(EncodeHead(ARRAY, m), EncodeTstr(context') + y, b, 0);
    HeadRoundTrip(ARRAY, n, true, b, 0);
    HeadRoundTrip(ARRAY, m, true, b, 0);
    var i := HeadSize(n);
    Prefix(EncodeTstr(context), x, b, i);
    Prefix(EncodeTstr(context'), y, b, i);
    StringRoundTrip(TSTR, context, true, b, i);
    StringRoundTrip(TSTR, context', true, b, i);
  }

  /** Equal structures have the same context, the same number of items, the same byte
      strings and the same rest. */
  lemma StructureInjective(context: Field, fs: seq<Field>, extra: nat, tail: seq<byte>,
                           context': Field, gs: seq<Field>, extra': nat, tail': seq<byte>)
    requires 1 + |fs| + extra < U64_BOUND && 1 + |gs| + extra' < U64_BOUND
    requires IsUtf8(context) && IsUtf8(context')
    requires StructureBytes(context, fs, extra, tail) == StructureBytes(context', gs, extra', tail')
    ensures context == context' && |fs| + extra == |gs| + extra'
    ensures |fs| == |gs| ==> fs == gs && tail == tail'
  {
    hide EncodeHead, EncodeString, FieldBytes, IsUtf8;
    var h, c, h', c' := EncodeHead(ARRAY, 1 + |fs| + extra), EncodeTstr(context),
                        EncodeHead(ARRAY, 1 + |gs| + extra'), EncodeTstr(context');
    assert h + c + FieldBytes(fs) + tail == h + c + (FieldBytes(fs) + tail);
    assert h' + c' + FieldBytes(gs) + tail' == h' + c' + (FieldBytes(gs) + tail');
    FrontUnique(1 + |fs| + extra, context, FieldBytes(fs) + tail, 1 + |gs| + extra', context', FieldBytes(gs) + tail');
    var b := FieldBytes(fs) + tail;
    assert b[0..] == b;
    if |fs| == |gs| {
      FieldsUnique(fs, tail, gs, tail', b, 0);
    }
  }

  // ----- The structures as instances -----

  lemma SignedIsStructure(context: Field, bodyProtected: Field, signProtected: Option<Field>, extAad: Field, payload: Field)
    ensures ToBeSignedMaced(context, bodyProtected, signProtected, extAad, payload)
         == StructureBytes(context, SignedFields(bodyProtected, signProtected, extAad, payload), 0, [])
  {
    hide EncodeHead, EncodeBstr, EncodeTstr;
    FieldsOf(bodyProtected, signProtected, extAad, payload);
    var front := EncodeHead(ARRAY, if signProtected.Some? then 5 else 4) + EncodeTstr(context);
    if signProtected.Some? {
      assert front + EncodeBstr(bodyProtected) + EncodeBstr(signProtected.value) + EncodeBstr(extAad) + EncodeBstr(payload)
          == front + (EncodeBstr(bodyProtected) + EncodeBstr(signProtected.value) + EncodeBstr(extAad)
                      + EncodeBstr(payload)) + [];
    } else {
      assert front + EncodeBstr(bodyProtected) + [] + EncodeBstr(extAad) + EncodeBstr(payload)
          == front + (EncodeBstr(bodyProtected) + EncodeBstr(extAad) + EncodeBstr(payload)) + [];
    }
  }

  lemma FieldsOf(b: Field, s: Option<Field>, a: Field, p: Field)
    ensures FieldBytes(SignedFields(b, s, a, p))
         == if s.Some? then EncodeBstr(b) + EncodeBstr(s.value) + EncodeBstr(a) + EncodeBstr(p)
            else EncodeBstr(b) + EncodeBstr(a) + EncodeBstr(p)
  {
    hide EncodeBstr;
    OneField(p);
    TwoFields(a, p);
    if s.Some? {
      FieldCons(s.value, [a, p]);
      FieldCons(b, [s.value, a, p]);
    } else {
      FieldCons(b, [a, p]);
    }
  }

  lemma FieldCons(f: Field, fs: seq<Field>)
    ensures FieldBytes([f] + fs) == EncodeBstr(f) + FieldBytes(fs)
  {
    hide EncodeBstr;
  }

  lemma OneField(p: Field)
    ensures FieldBytes([p]) == EncodeBstr(p)
  {
    hide EncodeBstr;
    FieldCons(p, []);
    assert [p] + [] == [p];
  }

  lemma TwoFields(a: Field, p: Field)
    ensures FieldBytes([a, p]) == EncodeBstr(a) + EncodeBstr(p)
  {
    hide EncodeBstr;
    OneField(p);
    FieldCons(a, [p]);
  }

  lemma EncIsStructure(context: Field, bodyProtected: Field, extAad: Field)
    ensures EncStructure(context, bodyProtected, extAad) == StructureBytes(context, [bodyProtected, extAad], 0, [])
  {
    hide EncodeHead, EncodeBstr, EncodeTstr;
    TwoFields(bodyProtected, extAad);
    var front := EncodeHead(ARRAY, 3) + EncodeTstr(context);
    assert front + EncodeBstr(bodyProtected) + EncodeBstr(extAad)
        == front + (EncodeBstr(bodyProtected) + EncodeBstr(extAad)) + [];
  }

  // ----- Main results -----

  /** Equal Sig_structures or MAC_structures were built from the same context, with or
      without a signer's bucket alike, and from the same fields. */
  lemma SignedInjective(c: Field, b: Field, s: Option<Field>, a: Field, p: Field,
                        c': Field, b': Field, s': Option<Field>, a': Field, p': Field)
    requires IsUtf8(c) && IsUtf8(c')
    requires ToBeSignedMaced(c, b, s, a, p) == ToBeSignedMaced(c', b', s', a', p')
    ensures c == c' && b == b' && s == s' && a == a' && p == p'
  {
    hide ToBeSignedMaced, StructureBytes, IsUtf8;
    SignedIsStructure(c, b, s, a, p);
    SignedIsStructure(c', b', s', a', p');
    var fs, gs := SignedFields(b, s, a, p), SignedFields(b', s', a', p');
    StructureInjective(c, fs, 0, [], c', gs, 0, []);
    assert fs[|fs| - 1] == p && fs[|fs| - 2] == a && fs[0] == b && (s.Some? ==> fs[1] == s.value);
    assert gs[|gs| - 1] == p' && gs[|gs| - 2] == a' && gs[0] == b' && (s'.Some? ==> gs[1] == s'.value);
  }

  /** Equal Enc_structures were built from the same context and the same fields. */
  lemma EncInjective(c: Field, b: Field, a: Field, c': Field, b': Field, a': Field)
    requires IsUtf8(c) && IsUtf8(c') && EncStructure(c, b, a) == EncStructure(c', b', a')
    ensures c == c' && b == b' && a == a'
  {
    hide EncStructure, StructureBytes, IsUtf8;
    EncIsStructure(c, b, a);
    EncIsStructure(c', b', a');
    StructureInjective(c, [b, a], 0, [], c', [b', a'], 0, []);
    assert [b, a][0] == b && [b, a][1] == a && [b', a'][0] == b' && [b', a'][1] == a';
  }

  /** What is signed or authenticated is never what is used as additional data. */
  lemma SignedIsNotEnc(c: Field, b: Field, s: Option<Field>, a: Field, p: Field, c': Field, b': Field, a': Field)
    requires IsUtf8(c) && IsUtf8(c')
    ensures ToBeSignedMaced(c, b, s, a, p) != EncStructure(c', b', a')
  {
    hide ToBeSignedMaced, EncStructure, StructureBytes, IsUtf8;
    SignedIsStructure(c, b, s, a, p);
    EncIsStructure(c', b', a');
    if ToBeSignedMaced(c, b, s, a, p) == EncStructure(c', b', a') {
      StructureInjective(c, SignedFields(b, s, a, p), 0, [], c', [b', a'], 0, []);
    }
  }

  // ----- Countersign_structures -----

  /** The field that a countersignature covers besides the payload: only with its own context
      string, the one of the newer standard. */
  function CoveredOther(t: Target, legacy: bool): (o: Option<seq<byte>>) {
    if legacy then None else t.other
  }

  /** A Countersign_structure: with the other fields as an array of one byte string. */
  lemma CounterIsStructure(t: Target, signProtected: Option<seq<byte>>, extAad: seq<byte>, legacy: bool)
    requires Sized(t) && |extAad| <= SIZE_MAX && (signProtected.Some? ==> |signProtected.value| <= SIZE_MAX)
    ensures var o := CoveredOther(t, legacy);
      var fs := SignedFields(t.bodyProtected, signProtected, extAad, t.payload);
      CounterStructure(t, signProtected, extAad, legacy)
      == StructureBytes(CounterContext(t.other.Some?, signProtected.None?, legacy), fs, if o.Some? then 1 else 0,
                        if o.Some? then EncodeHead(ARRAY, 1) + EncodeBstr(o.value) else [])
  {
    hide EncodeHead, EncodeBstr, EncodeTstr, CounterContext, CounterStructure, SignedFields, FieldBytes;
    ContextIsText(t.other.Some?, signProtected.None?, legacy);
    FieldsInRow(t.bodyProtected, signProtected, extAad, t.payload);
    var o := CoveredOther(t, legacy);
    var tail := if o.Some? then EncodeHead(ARRAY, 1) + EncodeBstr(o.value) else [];
    var n := 4 + (if signProtected.Some? then 1 else 0) + (if o.Some? then 1 else 0);
    var front := EncodeHead(ARRAY, n) + EncodeTstr(CounterContext(t.other.Some?, signProtected.None?, legacy));
    var b, a, p := EncodeBstr(t.bodyProtected), EncodeBstr(extAad), EncodeBstr(t.payload);
    var s := if signProtected.Some? then EncodeBstr(signProtected.value) else [];
    Regroup(front, b, s, a, p, tail);
    CounterStructureIs(t, signProtected, extAad, legacy);
  }

  /** The fields in a row, with none in the place of a missing one. */
  lemma FieldsInRow(b: Field, s: Option<Field>, a: Field, p: Field)
    ensures var fs := SignedFields(b, s, a, p);
      && |fs| == 3 + (if s.Some? then 1 else 0)
      && FieldBytes(fs)
         == EncodeBstr(b) + (if s.Some? then EncodeBstr(s.value) else []) + EncodeBstr(a) + EncodeBstr(p)
  {
    hide EncodeBstr, FieldBytes;
    FieldsOf(b, s, a, p);
    Nothing(EncodeBstr(b));
  }

  lemma Regroup(front: seq<byte>, b: seq<byte>, s: seq<byte>, a: seq<byte>, p: seq<byte>, tail: seq<byte>)
    ensures front + b + s + a + p + tail == front + (b + s + a + p) + tail
  {
    assert front + b + s + a + p == front + (b + s + a + p);
  }

  lemma CounterStructureIs(t: Target, signProtected: Option<seq<byte>>, extAad: seq<byte>, legacy: bool)
    requires Sized(t) && |extAad| <= SIZE_MAX && (signProtected.Some? ==> |signProtected.value| <= SIZE_MAX)
    ensures var o := CoveredOther(t, legacy);
      var n := 4 + (if signProtected.Some? then 1 else 0) + (if o.Some? then 1 else 0);
      CounterStructure(t, signProtected, extAad, legacy)
      == EncodeHead(ARRAY, n) + EncodeTstr(CounterContext(t.other.Some?, signProtected.None?, legacy))
         + EncodeBstr(t.bodyProtected) + (if signProtected.Some? then EncodeBstr(signProtected.value) else [])
         + EncodeBstr(extAad) + EncodeBstr(t.payload)
         + (if o.Some? then EncodeHead(ARRAY, 1) + EncodeBstr(o.value) else [])
  {
    hide EncodeHead, EncodeBstr, EncodeTstr, CounterContext;
  }

  /** The four context strings differ in length, which tells what they stand for. */
  lemma CounterContexts(other: bool, abbreviated: bool, legacy: bool)
    ensures |CounterContext(other, abbreviated, legacy)|
         == 16 + (if abbreviated then 1 else 0) + (if other && !legacy then 2 else 0)
  {
    hide AsciiBytes;
  }

  /** Equal Countersign_structures cover the same fields in the same way: full or
      abbreviated alike, and the same field besides the payload, or none alike. */
  lemma CounterInjective(t: Target, s: Option<seq<byte>>, a: seq<byte>, legacy: bool,
                         t': Target, s': Option<seq<byte>>, a': seq<byte>, legacy': bool)
    requires Sized(t) && |a| <= SIZE_MAX && (s.Some? ==> |s.value| <= SIZE_MAX)
    requires Sized(t') && |a'| <= SIZE_MAX && (s'.Some? ==> |s'.value| <= SIZE_MAX)
    requires CounterStructure(t, s, a, legacy) == CounterStructure(t', s', a', legacy')
    ensures t.bodyProtected == t'.bodyProtected && s == s' && a == a' && t.payload == t'.payload
    ensures CoveredOther(t, legacy) == CoveredOther(t', legacy')
  {
    hide CounterStructure, StructureBytes, IsUtf8, CounterContext, EncodeHead, EncodeBstr;
    CounterIsStructure(t, s, a, legacy);
    CounterIsStructure(t', s', a', legacy');
    var c, c' := CounterContext(t.other.Some?, s.None?, legacy), CounterContext(t'.other.Some?, s'.None?, legacy');
    ContextIsText(t.other.Some?, s.None?, legacy);
    ContextIsText(t'.other.Some?, s'.None?, legacy');
    CounterContexts(t.other.Some?, s.None?, legacy);
    CounterContexts(t'.other.Some?, s'.None?, legacy');
    var o, o' := CoveredOther(t, legacy), CoveredOther(t', legacy');
    var fs, gs := SignedFields(t.bodyProtected, s, a, t.payload), SignedFields(t'.bodyProtected, s', a', t'.payload);
    var x := if o.Some? then EncodeHead(ARRAY, 1) + EncodeBstr(o.value) else [];
    var y := if o'.Some? then EncodeHead(ARRAY, 1) + EncodeBstr(o'.value) else [];
    StructureInjective(c, fs, if o.Some? then 1 else 0, x, c', gs, if o'.Some? then 1 else 0, y);
    assert fs[|fs| - 1] == t.payload && fs[|fs| - 2] == a && fs[0] == t.bodyProtected && (s.Some? ==> fs[1] == s.value);
    assert gs[|gs| - 1] == t'.payload && gs[|gs| - 2] == a' && gs[0] == t'.bodyProtected && (s'.Some? ==> gs[1] == s'.value);
    if o.Some? {
      TailUnique(o.value, o'.value);
    }
  }

  lemma TailUnique(o: Field, o': Field)
    requires EncodeHead(ARRAY, 1) + EncodeBstr(o) == EncodeHead(ARRAY, 1) + EncodeBstr(o')
    ensures o == o'
  {
    hide EncodeHead, EncodeBstr;
    var h, x, y := EncodeHead(ARRAY, 1), EncodeBstr(o), EncodeBstr(o');
    assert x == (h + x)[|h|..] == (h + y)[|h|..] == y;
    assert x[0..] == x && EncodeBstr(o) + [] == x && EncodeBstr(o') + [] == y;
    BstrFirst(o, [], x, 0);
    BstrFirst(o', [], x, 0);
  }

  /** The context strings of the messages themselves. */
  predicate MessageContext(c: seq<byte>) {
    c == CONTEXT_SIGN1 || c == CONTEXT_SIGN || c == CONTEXT_MAC0 || c == CONTEXT_MAC
    || c == CONTEXT_ENCRYPT0 || c == CONTEXT_ENCRYPT
  }

  lemma MessageContexts(c: seq<byte>)
    requires MessageContext(c)
    ensures |c| <= 10 && IsUtf8(c)
  {
    hide AsciiBytes;
    AsciiFrom(c, 0);
  }

  /** A countersignature never covers the bytes that a signature, a MAC or an encryption does. */
  lemma CounterIsSeparate(t: Target, s: Option<seq<byte>>, a: seq<byte>, legacy: bool,
                          c: Field, b: Field, s': Option<Field>, a': Field, p: Field)
    requires Sized(t) && |a| <= SIZE_MAX && (s.Some? ==> |s.value| <= SIZE_MAX) && MessageContext(c)
    ensures CounterStructure(t, s, a, legacy) != ToBeSignedMaced(c, b, s', a', p)
    ensures CounterStructure(t, s, a, legacy) != EncStructure(c, b, a')
  {
    hide CounterStructure, StructureBytes, IsUtf8, CounterContext, ToBeSignedMaced, EncStructure, EncodeHead, EncodeBstr;
    CounterIsStructure(t, s, a, legacy);
    SignedIsStructure(c, b, s', a', p);
    EncIsStructure(c, b, a');
    MessageContexts(c);
    ContextIsText(t.other.Some?, s.None?, legacy);
    CounterContexts(t.other.Some?, s.None?, legacy);
    var o := CoveredOther(t, legacy);
    var fs, d := SignedFields(t.bodyProtected, s, a, t.payload), CounterContext(t.other.Some?, s.None?, legacy);
    var x := if o.Some? then EncodeHead(ARRAY, 1) + EncodeBstr(o.value) else [];
    var n := if o.Some? then 1 else 0;
    if CounterStructure(t, s, a, legacy) == ToBeSignedMaced(c, b, s', a', p) {
      StructureInjective(d, fs, n, x, c, SignedFields(b, s', a', p), 0, []);
    }
    if CounterStructure(t, s, a, legacy) == EncStructure(c, b, a') {
      StructureInjective(d, fs, n, x, c, [b, a'], 0, []);
    }
  }
}
