/**
 The grammar of nested COSE_recipient structures (section 5.1 of RFC 9052) as trees,
 independent of the parser: each level keeps the bytes of its three fields, which have an
 encoding of their own.  Skipping a list of recipients is proved to accept exactly the
 encodings of such trees.
 */
module RecipientGrammar {
  import opened Wire
  import opened Cbor
  import opened CborRoundTrip
  import opened Recipients

  datatype RecipientTree = RecipientTree(fields: seq<byte>, nested: seq<RecipientTree>)

  /** The three fields are those of a recipient, and a Direct one has nothing nested. */
  ghost predicate Wf(t: RecipientTree)
    decreases t, 1
  {
    && FieldsOk(t.fields, t.nested != [])
    && |t.nested| < U64_BOUND && WfAll(t.nested)
  }

  type Octets = b: seq<byte> | |b| <= SIZE_MAX

  /** The protected bucket, the bytes of the unprotected map, and the value, unless it is null. */
  datatype ThreeFields = ThreeFields(prot: Octets, header: seq<byte>, value: Option<Octets>)

  function FieldsBytes(f: ThreeFields): (b: seq<byte>) {
    EncodeBstr(f.prot) + f.header + (match f.value { case None => [0xF6] case Some(v) => EncodeBstr(v) })
  }

  /** The protected bucket is empty or one whole map, the unprotected one is one whole map, and the
      algorithm is in one of them at most; a Direct recipient protects nothing, has an empty value, and
      has nothing nested. */
  predicate ThreeOk(f: ThreeFields, nests: bool) {
    var p := if f.prot == [] then Ok(AlgSeen(0, false), 0) else SkippedMap(f.prot, 0, AlgSeen(0, false));
    p.Ok? && p.next == |f.prot| &&
    var u := SkippedMap(f.header, 0, p.value);
    u.Ok? && u.next == |f.header| && (u.value.alg == -6 ==> f.prot == [] && f.value == Some([]) && !nests)
  }

  ghost predicate FieldsOk(fields: seq<byte>, nests: bool) {
    exists f: ThreeFields :: fields == FieldsBytes(f) && ThreeOk(f, nests)
  }

  /** The fields as the parser reads them. */
  predicate FieldsParse(fields: seq<byte>, nests: bool) {
    var r := RecipientFields(fields, 0);
    r.Ok? && r.next == |fields| && (nests ==> r.value.alg != ALG_DIRECT)
  }

  ghost predicate WfAll(ts: seq<RecipientTree>)
    decreases ts, 0
  {
    ts == [] || (Wf(ts[0]) && WfAll(ts[1..]))
  }

  /** An array of three fields, or of four with the array of what is nested as the last. */
  ghost function Encode(t: RecipientTree): (b: seq<byte>)
    requires Wf(t)
    decreases t, 1
  {
    EncodeHead(ARRAY, if t.nested == [] then 3 else 4) + t.fields + NestedBytes(t)
  }

  ghost function NestedBytes(t: RecipientTree): (b: seq<byte>)
    requires Wf(t)
    decreases t, 0
  {
    if t.nested == [] then [] else EncodeHead(ARRAY, |t.nested|) + EncodeAll(t.nested)
  }

  ghost function EncodeAll(ts: seq<RecipientTree>): (b: seq<byte>)
    requires WfAll(ts)
    decreases ts, 0
  {
    if ts == [] then [] else Encode(ts[0]) + EncodeAll(ts[1..])
  }

  /** How many levels there are below the outermost. */
  function Depth(t: RecipientTree): (n: nat)
    decreases t, 1
  {
    if t.nested == [] then 0 else 1 + DepthAll(t.nested)
  }

  function DepthAll(ts: seq<RecipientTree>): (n: nat)
    decreases ts, 0
  {
    if ts == [] then 0
    else if Depth(ts[0]) >= DepthAll(ts[1..]) then Depth(ts[0]) else DepthAll(ts[1..])
  }

  /** The trees are encoded at `i`, up to `e`, nested no deeper than `d`. */
  ghost predicate TreesStand(s: seq<byte>, i: nat, ts: seq<RecipientTree>, d: nat, e: nat) {
    && WfAll(ts) && DepthAll(ts) <= d
    && i <= e <= |s| && s[i..e] == EncodeAll(ts)
  }

  ghost predicate RecipientsAt(s: seq<byte>, i: nat, n: nat, d: nat, e: nat) {
    exists ts: seq<RecipientTree> :: TreesStand(s, i, ts, d, e) && |ts| == n
  }

  // ----- Trees -----

  lemma Cons(t: RecipientTree, us: seq<RecipientTree>)
    requires Wf(t) && WfAll(us)
    ensures WfAll([t] + us) && EncodeAll([t] + us) == Encode(t) + EncodeAll(us)
    ensures DepthAll([t] + us) == if Depth(t) >= DepthAll(us) then Depth(t) else DepthAll(us)
  {
    hide Wf, Encode, Depth;
    assert ([t] + us)[1..] == us && ([t] + us)[0] == t;
  }

  lemma {:induction false} EncodeAllSize(ts: seq<RecipientTree>)
    requires WfAll(ts)
    ensures |EncodeAll(ts)| >= |ts|
  {
    hide Wf, EncodeHead, NestedBytes;
    if ts != [] {
      EncodeAllSize(ts[1..]);
    }
  }

  // ----- Array heads -----

  lemma ArrayHeadAt(s: seq<byte>, i: nat, n: u64)
    requires i + HeadSize(n) + n <= |s| && s[i..i + HeadSize(n)] == EncodeHead(ARRAY, n)
    ensures DecodeArray(s, i, false) == Ok(n, i + HeadSize(n))
  {
    hide DecodeHead, EncodeHead, HeadSize;
    var h := EncodeHead(ARRAY, n);
    assert h[0..|h|] == h;
    HeadRoundTrip(ARRAY, n, false, s, i);
  }

  lemma ArrayHeadIs(s: seq<byte>, i: nat)
    requires DecodeArray(s, i, false).Ok?
    ensures var n, j := DecodeArray(s, i, false).value, DecodeArray(s, i, false).next;
      n < U64_BOUND && s[i..j] == EncodeHead(ARRAY, n)
  {
    hide EncodeHead;
    StrictIsCanonical(s, i);
  }

  // ----- Three fields -----

  lemma StringThere(d: Octets, s: seq<byte>, i: nat)
    requires SameSlice(EncodeBstr(d), 0, s, i, |EncodeBstr(d)|)
    ensures DecodeHead(s, i, false) == Ok(Item(BSTR, |d|, d), i + |EncodeBstr(d)|)
    ensures DecodeBstr(s, i, false) == Ok(d, i + |EncodeBstr(d)|)
    ensures s[i] != NULL_BYTE
  {
    hide DecodeHead, EncodeString, SameSlice;
    StringRoundTrip(BSTR, d, false, s, i);
    StringIsNoNull(s, i);
  }

  lemma StringIsNoNull(s: seq<byte>, i: nat)
    requires DecodeHead(s, i, false).Ok? && DecodeHead(s, i, false).value.major == BSTR
    ensures s[i] != NULL_BYTE
  {
  }

  lemma PartOf(a: seq<byte>, b: seq<byte>, c: seq<byte>)
    ensures var s := a + b + c;
      SameSlice(a, 0, s, 0, |a|) && SameSlice(b, 0, s, |a|, |b|) && SameSlice(c, 0, s, |a| + |b|, |c|)
  {
    var s := a + b + c;
    assert s[0..|a|] == a == a[0..|a|];
    assert s[|a|..|a| + |b|] == b == b[0..|b|];
    assert s[|a| + |b|..] == c == c[0..|c|];
  }

  /** Encoded fields are read. */
  lemma FieldsRead(f: ThreeFields, nests: bool)
    requires ThreeOk(f, nests) && |FieldsBytes(f)| <= SIZE_MAX
    ensures FieldsParse(FieldsBytes(f), nests)
  {
    hide DecodeHead, EncodeBstr, DecodeBstr, SameSlice, SkippedMap;
    var fields, v := FieldsBytes(f), match f.value { case None => [0xF6] case Some(v) => EncodeBstr(v) };
    PartOf(EncodeBstr(f.prot), f.header, v);
    StringThere(f.prot, fields, 0);
    var p := if f.prot == [] then Ok(AlgSeen(0, false), 0) else SkippedMap(f.prot, 0, AlgSeen(0, false));
    var j := |EncodeBstr(f.prot)|;
    SkippedMapFraming(f.header, 0, p.value, fields, j);
    if f.value.Some? {
      StringThere(f.value.value, fields, j + |f.header|);
    } else {
      SameSliceAt(v, 0, fields, j + |f.header|, 1, 0);
    }
  }

  /** Fields that are read are encoded. */
  lemma FieldsEncode(fields: seq<byte>, nests: bool) returns (f: ThreeFields)
    requires FieldsParse(fields, nests) && |fields| <= SIZE_MAX
    ensures fields == FieldsBytes(f) && ThreeOk(f, nests)
  {
    hide DecodeHead, EncodeBstr, DecodeBstr, SkippedMap;
    var p := DecodeBstr(fields, 0, false);
    var b := SkippedProtected(p.value).value;
    var m := SkippedMap(fields, p.next, b);
    var header := fields[p.next..m.next];
    BstrStands(fields, 0);
    assert header[0..|header|] == header;
    SkippedMapFraming(fields, p.next, b, header, 0);
    assert fields == fields[0..p.next] + header + fields[m.next..];
    if m.value.alg == ALG_DIRECT {
      EmptyStands(fields, m.next);
      f := ThreeFields(p.value, header, Some([]));
    } else if fields[m.next] == NULL_BYTE {
      f := ThreeFields(p.value, header, None);
      assert fields[m.next..] == [0xF6];
    } else {
      BstrStands(fields, m.next);
      f := ThreeFields(p.value, header, Some(DecodeBstr(fields, m.next, false).value));
    }
  }

  lemma EmptyStands(s: seq<byte>, i: nat)
    requires DecodeHead(s, i, false).Ok? && DecodeHead(s, i, false).next == |s|
    requires DecodeHead(s, i, false).value.major == BSTR && DecodeHead(s, i, false).value.data == []
    ensures s[i..] == EncodeBstr([])
  {
    hide DecodeHead, EncodeBstr;
    assert DecodeBstr(s, i, false) == Ok([], |s|);
    BstrStands(s, i);
  }

  /** The parser reads exactly the encodings of three fields. */
  lemma FieldsExactly(fields: seq<byte>, nests: bool)
    requires |fields| <= SIZE_MAX
    ensures FieldsOk(fields, nests) <==> FieldsParse(fields, nests)
  {
    hide FieldsBytes, ThreeOk, FieldsParse;
    if FieldsParse(fields, nests) {
      var f := FieldsEncode(fields, nests);
    }
    if FieldsOk(fields, nests) {
      var f: ThreeFields :| fields == FieldsBytes(f) && ThreeOk(f, nests);
      FieldsRead(f, nests);
    }
  }

  // ----- Every accepted list is encoded -----

  /** The fields of a recipient that is accepted. */
  lemma FieldsOfHead(s: seq<byte>, i: nat) returns (fields: seq<byte>)
    requires RecipientHead(s, i).Ok? && RecipientHead(s, i).next - i <= SIZE_MAX
    ensures var h := RecipientHead(s, i);
      FieldsOk(fields, h.value.0 == 4) && s[i..h.next] == EncodeHead(ARRAY, h.value.0) + fields
  {
    hide DecodeArray, RecipientFields, EncodeHead, FieldsOk;
    var j, e := DecodeArray(s, i, false).next, RecipientHead(s, i).next;
    ArrayHeadIs(s, i);
    fields := s[j..e];
    assert fields[0..e - j] == fields;
    RecipientFieldsFraming(s, j, fields, 0);
    FieldsExactly(fields, RecipientHead(s, i).value.0 == 4);
    SliceSplit(s, i, j, e);
  }

  /** A recipient in front of others. */
  lemma InFront(s: seq<byte>, i: nat, t: RecipientTree, k: nat, us: seq<RecipientTree>, d: nat, e: nat)
    returns (ts: seq<RecipientTree>)
    requires i <= k && TreesStand(s, k, us, d, e) && Wf(t) && Depth(t) <= d && s[i..k] == Encode(t)
    ensures |ts| == 1 + |us| && TreesStand(s, i, ts, d, e)
  {
    hide Wf, WfAll, Encode, EncodeAll, Depth, DepthAll;
    ts := [t] + us;
    Cons(t, us);
    SliceSplit(s, i, k, e);
  }

  /** A recipient with others nested in it. */
  lemma WithNested(s: seq<byte>, i: nat, fields: seq<byte>, k: nat, j: nat, kids: seq<RecipientTree>, d: nat, e: nat)
    returns (t: RecipientTree)
    requires i <= k <= j <= |s| && FieldsOk(fields, true) && s[i..k] == EncodeHead(ARRAY, 4) + fields
    requires 0 < |kids| < U64_BOUND && s[k..j] == EncodeHead(ARRAY, |kids|) && TreesStand(s, j, kids, d, e)
    ensures Wf(t) && Depth(t) <= d + 1 && s[i..e] == Encode(t)
  {
    hide FieldsOk, EncodeHead, WfAll, EncodeAll, DepthAll;
    t := RecipientTree(fields, kids);
    SliceSplit(s, i, k, e);
    SliceSplit(s, k, j, e);
  }

  lemma {:induction false} ListSound(s: seq<byte>, i: nat, n: nat, d: nat) returns (ts: seq<RecipientTree>)
    requires RecipientList(s, i, n, d).Ok? && i <= |s| && RecipientList(s, i, n, d).next - i <= SIZE_MAX
    ensures |ts| == n && TreesStand(s, i, ts, d, RecipientList(s, i, n, d).next)
    decreases |s| - i
  {
    hide RecipientList, RecipientHead, DecodeArray, EncodeHead, FieldsOk, TreesStand, Wf, Encode, Depth;
    if n == 0 {
      ListNone(s, i, d);
      ts := [];
      NoTreesStand(s, i, d);
      return;
    }
    ListStep(s, i, n, d);
    var h, e := RecipientHead(s, i), RecipientList(s, i, n, d).next;
    var fields := FieldsOfHead(s, i);
    if h.value.0 == 4 {
      var m := DecodeArray(s, h.next, false);
      var r := RecipientList(s, m.next, m.value, d - 1);
      ArrayHeadIs(s, h.next);
      var kids := ListSound(s, m.next, m.value, d - 1);
      var t := WithNested(s, i, fields, h.next, m.next, kids, d - 1, r.next);
      var us := ListSound(s, r.next, n - 1, d);
      ts := InFront(s, i, t, r.next, us, d, e);
    } else {
      var us := ListSound(s, h.next, n - 1, d);
      Single(fields);
      ts := InFront(s, i, RecipientTree(fields, []), h.next, us, d, e);
    }
  }

  lemma NoTreesStand(s: seq<byte>, i: nat, d: nat)
    requires i <= |s|
    ensures TreesStand(s, i, [], d, i)
  {
  }

  lemma Single(fields: seq<byte>)
    requires FieldsOk(fields, false)
    ensures var t := RecipientTree(fields, []); Wf(t) && Depth(t) == 0 && Encode(t) == EncodeHead(ARRAY, 3) + fields
  {
    hide FieldsOk, EncodeHead;
  }

  // ----- Every encoded list is accepted -----

  /** What stands where trees do. */
  lemma FirstTreeStands(s: seq<byte>, i: nat, ts: seq<RecipientTree>, d: nat, e: nat) returns (k: nat)
    requires ts != [] && TreesStand(s, i, ts, d, e)
    ensures i <= k <= e <= |s| && Wf(ts[0]) && Depth(ts[0]) <= d
    ensures s[i..k] == Encode(ts[0]) && TreesStand(s, k, ts[1..], d, e)
  {
    hide Wf, Encode, Depth;
    k := i + |Encode(ts[0])|;
    SliceParts(s, i, e, Encode(ts[0]), EncodeAll(ts[1..]));
  }

  lemma SliceParts(s: seq<byte>, i: nat, e: nat, a: seq<byte>, b: seq<byte>)
    requires i <= e <= |s| && s[i..e] == a + b
    ensures i + |a| + |b| == e && s[i..i + |a|] == a && s[i + |a|..e] == b
  {
    SubSlice(s, i, e, 0, |a|);
    SubSlice(s, i, e, |a|, e - i);
    assert (a + b)[0..|a|] == a && (a + b)[|a|..|a| + |b|] == b;
  }

  /** What stands where a tree does: the start of its nested recipients, if it has any. */
  lemma PartsAt(s: seq<byte>, i: nat, t: RecipientTree, k: nat) returns (m: nat, j: nat)
    requires i <= k <= |s| <= SIZE_MAX && Wf(t) && s[i..k] == Encode(t)
    ensures i < m <= k && RecipientHead(s, i).Ok? && RecipientHead(s, i).next == m
    ensures t.nested == [] ==> m == k && RecipientHead(s, i).value.0 == 3
    ensures t.nested != [] ==>
      && RecipientHead(s, i).value.0 == 4
      && m < j <= k && DecodeArray(s, m, false) == Ok(|t.nested|, j)
      && TreesStand(s, j, t.nested, DepthAll(t.nested), k)
  {
    hide WfAll, EncodeAll, EncodeHead, FieldsOk, RecipientHead, DecodeArray, DepthAll;
    var h := EncodeHead(ARRAY, if t.nested == [] then 3 else 4);
    assert Encode(t) == (h + t.fields) + NestedBytes(t);
    SliceParts(s, i, k, h + t.fields, NestedBytes(t));
    m := i + |h| + |t.fields|;
    j := m;
    if t.nested != [] {
      SliceParts(s, m, k, EncodeHead(ARRAY, |t.nested|), EncodeAll(t.nested));
      j := m + HeadSize(|t.nested|);
      EncodeAllSize(t.nested);
      ArrayHeadAt(s, m, |t.nested|);
    }
    SliceParts(s, i, m, h, t.fields);
    HeadReads(s, i, t.fields, if t.nested == [] then 3 else 4, m);
  }

  /** The first three fields, read. */
  lemma HeadReads(s: seq<byte>, i: nat, fields: seq<byte>, n: u64, m: nat)
    requires n == 3 || n == 4
    requires FieldsOk(fields, n == 4) && i + HeadSize(n) + |fields| == m <= |s| <= SIZE_MAX && (n == 4 ==> m < |s|)
    requires s[i..i + HeadSize(n)] == EncodeHead(ARRAY, n) && s[i + HeadSize(n)..m] == fields
    ensures RecipientHead(s, i).Ok? && RecipientHead(s, i).next == m && RecipientHead(s, i).value.0 == n
  {
    hide EncodeHead, DecodeArray, RecipientFields, FieldsOk;
    FieldsExactly(fields, n == 4);
    FieldsSize(fields, 0);
    ArrayHeadAt(s, i, n);
    assert fields[0..|fields|] == fields;
    RecipientFieldsFraming(fields, 0, s, i + HeadSize(n));
  }

  lemma {:induction false} ListComplete(s: seq<byte>, i: nat, ts: seq<RecipientTree>, d: nat, e: nat)
    requires |s| <= SIZE_MAX && TreesStand(s, i, ts, d, e)
    ensures RecipientList(s, i, |ts|, d) == Ok((), e)
    decreases e - i
  {
    hide RecipientList, RecipientHead, DecodeArray, EncodeHead, TreesStand, Wf, Encode;
    if ts == [] {
      ListNone(s, i, d);
      NoneAt(s, i, d, e);
      return;
    }
    var t := ts[0];
    var k := FirstTreeStands(s, i, ts, d, e);
    var m, j := PartsAt(s, i, t, k);
    ListStep(s, i, |ts|, d);
    if t.nested != [] {
      DeeperAt(s, j, t.nested, d - 1, k);
      ListComplete(s, j, t.nested, d - 1, k);
    }
    ListComplete(s, k, ts[1..], d, e);
  }

  lemma NoneAt(s: seq<byte>, i: nat, d: nat, e: nat)
    requires TreesStand(s, i, [], d, e)
    ensures i == e
  {
    assert |s[i..e]| == 0;
  }

  lemma DeeperAt(s: seq<byte>, i: nat, ts: seq<RecipientTree>, d: nat, e: nat)
    requires TreesStand(s, i, ts, DepthAll(ts), e) && DepthAll(ts) <= d
    ensures TreesStand(s, i, ts, d, e)
  {
  }

  /** Skipping recipients accepts exactly the grammar, up to the depth it is given. */
  lemma ListIffGrammar(s: seq<byte>, i: nat, n: nat, d: nat, e: nat)
    requires i <= |s| <= SIZE_MAX
    ensures RecipientList(s, i, n, d) == Ok((), e) <==> RecipientsAt(s, i, n, d, e)
  {
    hide RecipientList, TreesStand;
    ListNone(s, i, d);
    if RecipientList(s, i, n, d) == Ok((), e) {
      var ts := ListSound(s, i, n, d);
    }
    if RecipientsAt(s, i, n, d, e) {
      var ts: seq<RecipientTree> :| TreesStand(s, i, ts, d, e) && |ts| == n;
      ListComplete(s, i, ts, d, e);
    }
  }

  /** A list of recipients is accepted wherever its bytes stand. */
  lemma RecipientListFraming(s: seq<byte>, i: nat, n: nat, d: nat, t: seq<byte>, j: nat)
    requires RecipientList(s, i, n, d).Ok? && i <= |s| && |t| <= SIZE_MAX
    requires SameSlice(s, i, t, j, RecipientList(s, i, n, d).next - i)
    ensures RecipientList(t, j, n, d) == Ok((), j + (RecipientList(s, i, n, d).next - i))
  {
    hide RecipientList, WfAll, EncodeAll, DepthAll;
    SameSliceBound(s, i, t, j, RecipientList(s, i, n, d).next - i);
    var ts := ListSound(s, i, n, d);
    ListComplete(t, j, ts, d, j + (RecipientList(s, i, n, d).next - i));
  }

  lemma SkippedRecipientFraming(s: seq<byte>, i: nat, t: seq<byte>, j: nat)
    requires SkippedRecipient(s, i).Ok? && |t| <= SIZE_MAX
    requires SameSlice(s, i, t, j, SkippedRecipient(s, i).next - i)
    ensures SkippedRecipient(t, j) == Ok(SkippedRecipient(s, i).value, j + (SkippedRecipient(s, i).next - i))
  {
    hide RecipientHead, RecipientList, SameSlice;
    ListStep(s, i, 1, CBOR_MAX_DEPTH);
    var e, h := SkippedRecipient(s, i).next, RecipientHead(s, i);
    SameSliceBound(s, i, t, j, e - i);
    RecipientListFraming(s, i, 1, CBOR_MAX_DEPTH, t, j);
    SameSlicePart(s, i, t, j, e - i, 0, h.next - i);
    RecipientHeadFraming(s, i, t, j);
  }
}
