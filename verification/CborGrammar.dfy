/**
 The grammar of encoded CBOR items as concrete syntax trees, independent of any
 decoder: a tree keeps, at every head, the form its argument was written in.
 Skipping an item is proved to accept exactly the encodings of such trees.
 */
module CborGrammar {
  import opened Wire
  import opened Utf8
  import opened Cbor

  datatype Tree =
    | Leaf(major: Major, ai: Info, val: u64, data: seq<byte>)
    | Node(major: Major, ai: Info, val: u64, kids: seq<Tree>)

  /** A definite-length item of section 3 of RFC 8949; strict trees use shortest heads. */
  predicate Wf(t: Tree, tol: bool)
    decreases t, 1
  {
    && HeadOk(t.major, t.ai, t.val, tol)
    && match t
       case Leaf(major, _, val, data) =>
         && (major == UINT || major == NEGINT || major == SIMPLE ==> data == [])
         && (major == BSTR || major == TSTR ==> |data| == val)
         && (major == TSTR ==> IsUtf8(data))
         && (major <= TSTR || major == SIMPLE)
       case Node(major, _, val, kids) =>
         && (major == ARRAY || major == MAP || major == TAG)
         && |kids| == (if major == ARRAY then val else if major == MAP then 2 * val else 1)
         && WfAll(kids, tol)
  }

  predicate WfAll(ts: seq<Tree>, tol: bool)
    decreases ts, 0
  {
    ts == [] || (Wf(ts[0], tol) && WfAll(ts[1..], tol))
  }

  function Encode(t: Tree): (b: seq<byte>)
    decreases t, 1
  {
    HeadBytes(t.major, t.ai, t.val) +
    match t
    case Leaf(_, _, _, data) => data
    case Node(_, _, _, kids) => EncodeAll(kids)
  }

  function EncodeAll(ts: seq<Tree>): (b: seq<byte>)
    decreases ts, 0
  {
    if ts == [] then []
    else Encode(ts[0]) + EncodeAll(ts[1..])
  }

  /** The nesting of non-empty arrays and maps; tags do not count. */
  function Nesting(t: Tree): (n: nat)
    decreases t, 1
  {
    match t
    case Leaf(_, _, _, _) => 0
    case Node(major, _, _, kids) =>
      NestingAll(kids) + if major != TAG && kids != [] then 1 else 0
  }

  function NestingAll(ts: seq<Tree>): (n: nat)
    decreases ts, 0
  {
    if ts == [] then 0
    else if Nesting(ts[0]) >= NestingAll(ts[1..]) then Nesting(ts[0])
    else NestingAll(ts[1..])
  }

  /** `n` items are encoded at `i`, up to `e`, nested no deeper than `d`. */
  ghost predicate ItemsAt(s: seq<byte>, i: nat, n: nat, d: nat, tol: bool, e: nat) {
    exists ts: seq<Tree> :: TreesAt(s, i, ts, d, tol, e) && |ts| == n
  }

  ghost predicate TreesAt(s: seq<byte>, i: nat, ts: seq<Tree>, d: nat, tol: bool, e: nat) {
    && WfAll(ts, tol) && NestingAll(ts) <= d
    && i <= e <= |s| && s[i..e] == EncodeAll(ts)
  }

  lemma {:induction false} EncodeAllSize(ts: seq<Tree>, tol: bool)
    requires WfAll(ts, tol)
    ensures |EncodeAll(ts)| >= |ts|
  {
    if ts != [] {
      EncodeAllSize(ts[1..], tol);
    }
  }

  lemma WfFirst(ts: seq<Tree>, tol: bool)
    requires WfAll(ts, tol) && ts != []
    ensures Wf(ts[0], tol) && WfAll(ts[1..], tol)
    ensures HeadOk(ts[0].major, ts[0].ai, ts[0].val, tol)
    ensures ts[0].Node? ==> WfAll(ts[0].kids, tol)
  {
  }

  lemma WfCons(t: Tree, us: seq<Tree>, tol: bool)
    requires Wf(t, tol) && WfAll(us, tol)
    ensures WfAll([t] + us, tol)
    ensures EncodeAll([t] + us) == Encode(t) + EncodeAll(us)
    ensures NestingAll([t] + us) == if Nesting(t) >= NestingAll(us) then Nesting(t) else NestingAll(us)
  {
    assert ([t] + us)[1..] == us;
  }

  lemma SplitThree(s: seq<byte>, i: nat, e: nat, h: seq<byte>, body: seq<byte>, rest: seq<byte>)
    requires i <= e <= |s| && s[i..e] == (h + body) + rest
    ensures var j := i + |h|; var k := j + |body|;
      && k + |rest| == e && SameSlice(h, 0, s, i, |h|) && s[j..k] == body && s[k..e] == rest
  {
    var all := s[i..e];
    assert all[..|h|] == h;
    SubSlice(s, i, e, 0, |h|);
    assert all[|h|..|h| + |body|] == body;
    SubSlice(s, i, e, |h|, |h| + |body|);
    assert all[|h| + |body|..|all|] == rest;
    SubSlice(s, i, e, |h| + |body|, |all|);
    assert h[0..|h|] == h;
  }

  /** Where the body of the first tree starts, and where it ends. */
  function BodyStart(i: nat, t: Tree): nat {
    i + 1 + ArgWidth(t.ai)
  }

  function BodyEnd(i: nat, t: Tree): nat {
    BodyStart(i, t) + if t.Leaf? then |t.data| else |EncodeAll(t.kids)|
  }

  /** What stands at `i` when a non-empty list of trees does. */
  lemma FirstAt(s: seq<byte>, i: nat, ts: seq<Tree>, d: nat, tol: bool, e: nat)
    requires ts != [] && TreesAt(s, i, ts, d, tol, e)
    ensures var t := ts[0]; var j, k := BodyStart(i, t), BodyEnd(i, t);
      && i < j <= k <= e
      && s[i] / 32 == t.major && s[i] % 32 == t.ai && HeadArgument(s, i) == t.val
      && Wf(t, tol) && TreesAt(s, k, ts[1..], d, tol, e)
      && (t.Leaf? ==> s[j..k] == t.data)
      && (t.Node? ==> TreesAt(s, j, t.kids, NestingAll(t.kids), tol, k))
      && Nesting(t) <= d
  {
    hide Wf, Encode, EncodeAll, Nesting, HeadArgument, HeadBytes, HeadOk, SameSlice, ArgWidth, TreesAt, WfAll, NestingAll;
    var t := ts[0];
    FirstStands(s, i, ts, d, tol, e);
    DecodeHeadBytes(t.major, t.ai, t.val, tol, s, i);
  }

  /** Where the parts of the first tree, and the trees behind it, stand. */
  lemma FirstStands(s: seq<byte>, i: nat, ts: seq<Tree>, d: nat, tol: bool, e: nat)
    requires ts != [] && TreesAt(s, i, ts, d, tol, e)
    ensures var t := ts[0]; var h, j, k := HeadBytes(t.major, t.ai, t.val), BodyStart(i, t), BodyEnd(i, t);
      && i < j <= k <= e && HeadOk(t.major, t.ai, t.val, tol) && SameSlice(h, 0, s, i, |h|)
      && Wf(t, tol) && TreesAt(s, k, ts[1..], d, tol, e)
      && (t.Leaf? ==> s[j..k] == t.data)
      && (t.Node? ==> TreesAt(s, j, t.kids, NestingAll(t.kids), tol, k))
      && Nesting(t) <= d
  {
    hide Wf, WfAll, Encode, EncodeAll, Nesting, NestingAll, HeadBytes, HeadOk, SameSlice, ArgWidth;
    WfFirst(ts, tol);
    FirstParts(ts);
    var t := ts[0];
    SplitThree(s, i, e, HeadBytes(t.major, t.ai, t.val), if t.Leaf? then t.data else EncodeAll(t.kids), EncodeAll(ts[1..]));
  }

  lemma FirstParts(ts: seq<Tree>)
    requires ts != []
    ensures var t := ts[0];
      && EncodeAll(ts)
         == (HeadBytes(t.major, t.ai, t.val) + if t.Leaf? then t.data else EncodeAll(t.kids)) + EncodeAll(ts[1..])
      && Nesting(t) <= NestingAll(ts) && NestingAll(ts[1..]) <= NestingAll(ts)
  {
    assert EncodeAll(ts) == Encode(ts[0]) + EncodeAll(ts[1..]);
    hide HeadBytes;
  }

  /** The decoder's view of the first tree. */
  lemma HeadAt(s: seq<byte>, i: nat, ts: seq<Tree>, d: nat, tol: bool, e: nat)
    requires ts != [] && TreesAt(s, i, ts, d, tol, e)
    ensures var t := ts[0]; var j, k := BodyStart(i, t), BodyEnd(i, t);
      && i < j <= k <= e && TreesAt(s, k, ts[1..], d, tol, e)
      && DecodeHead(s, i, tol)
         == (if t.Leaf? then Ok(Item(t.major, t.val, t.data), k) else Ok(Item(t.major, t.val, []), j))
      && (t.Leaf? ==> t.major != TAG && t.major != ARRAY && t.major != MAP)
      && (t.Node? && t.val > 0 && t.major != TAG ==>
            && d > 0 && TreesAt(s, j, t.kids, d - 1, tol, k)
            && 0 < |t.kids| <= |s|
            && (t.major == MAP || t.major == ARRAY)
            && |t.kids| == if t.major == MAP then 2 * t.val else t.val)
      && (t.Node? && t.val == 0 && t.major != TAG ==> j == k)
      && (t.Node? && t.major == TAG ==> |t.kids| == 1)
  {
    var t := ts[0];
    FirstAt(s, i, ts, d, tol, e);
    HeadOfTree(s, i, t, tol);
    if t.Node? {
      EncodeAllSize(t.kids, tol);
    }
  }

  lemma HeadOfTree(s: seq<byte>, i: nat, t: Tree, tol: bool)
    requires Wf(t, tol) && BodyEnd(i, t) <= |s|
    requires s[i] / 32 == t.major && s[i] % 32 == t.ai && HeadArgument(s, i) == t.val
    requires t.Leaf? ==> s[BodyStart(i, t)..BodyEnd(i, t)] == t.data
    ensures DecodeHead(s, i, tol)
         == if t.Leaf? then Ok(Item(t.major, t.val, t.data), BodyEnd(i, t))
            else Ok(Item(t.major, t.val, []), BodyStart(i, t))
  {
  }

  /** Every encoding of trees is skipped, exactly to its end. */
  lemma {:induction false} SkipComplete(s: seq<byte>, i: nat, ts: seq<Tree>, d: nat, tol: bool, e: nat)
    requires |s| <= SIZE_MAX && TreesAt(s, i, ts, d, tol, e)
    ensures SkipItems(s, i, |ts|, d, tol) == Ok((), e)
    decreases e - i
  {
    hide *;
    if ts == [] {
      SkipNothing(s, i, d, tol, e);
      return;
    }
    var t := ts[0];
    var j, k := BodyStart(i, t), BodyEnd(i, t);
    HeadAt(s, i, ts, d, tol, e);
    if t.Node? && t.major == TAG {
      UnderTag(s, i, ts, d, tol, e);
      SkipComplete(s, j, [t.kids[0]] + ts[1..], d, tol, e);
      SkipTag(s, i, |ts|, d, tol);
    } else {
      SkipComplete(s, k, ts[1..], d, tol, e);
      if t.Node? && t.val > 0 {
        SkipComplete(s, j, t.kids, d - 1, tol, k);
        SkipContainer(s, i, |ts|, d, tol);
      } else {
        SkipPlain(s, i, |ts|, d, tol);
      }
    }
  }

  lemma SkipNothing(s: seq<byte>, i: nat, d: nat, tol: bool, e: nat)
    ensures TreesAt(s, i, [], d, tol, e) ==> SkipItems(s, i, 0, d, tol) == Ok((), e)
    ensures i <= |s| ==> TreesAt(s, i, [], d, tol, i) && SkipItems(s, i, 0, d, tol) == Ok((), i)
  {
  }

  lemma SkipTag(s: seq<byte>, i: nat, n: nat, d: nat, tol: bool)
    requires n > 0 && DecodeHead(s, i, tol).Ok? && DecodeHead(s, i, tol).value.major == TAG
    ensures SkipItems(s, i, n, d, tol) == SkipItems(s, DecodeHead(s, i, tol).next, n, d, tol)
  {
  }

  lemma SkipPlain(s: seq<byte>, i: nat, n: nat, d: nat, tol: bool)
    requires n > 0 && DecodeHead(s, i, tol).Ok?
    requires var it := DecodeHead(s, i, tol).value;
      it.major != TAG && (it.major == ARRAY || it.major == MAP ==> it.val == 0)
    ensures SkipItems(s, i, n, d, tol) == SkipItems(s, DecodeHead(s, i, tol).next, n - 1, d, tol)
  {
  }

  lemma SkipContainer(s: seq<byte>, i: nat, n: nat, d: nat, tol: bool)
    requires n > 0 && d > 0 && DecodeHead(s, i, tol).Ok?
    requires var it := DecodeHead(s, i, tol).value;
      (it.major == ARRAY || it.major == MAP) && 0 < it.val <= |s|
      && (it.major == MAP ==> it.val <= SIZE_MAX / 2)
    ensures var it, j := DecodeHead(s, i, tol).value, DecodeHead(s, i, tol).next;
      var kids := SkipItems(s, j, if it.major == MAP then 2 * it.val else it.val, d - 1, tol);
      SkipItems(s, i, n, d, tol) == if kids.Ok? then SkipItems(s, kids.next, n - 1, d, tol) else kids
  {
  }

  /** Below a tag stands the tagged item, followed by what follows the tag. */
  lemma UnderTag(s: seq<byte>, i: nat, ts: seq<Tree>, d: nat, tol: bool, e: nat)
    requires ts != [] && TreesAt(s, i, ts, d, tol, e) && ts[0].Node? && ts[0].major == TAG
    ensures |ts[0].kids| == 1
    ensures TreesAt(s, BodyStart(i, ts[0]), [ts[0].kids[0]] + ts[1..], d, tol, e)
  {
    var t := ts[0];
    FirstAt(s, i, ts, d, tol, e);
    TagKid(t, tol);
    WfCons(t.kids[0], ts[1..], tol);
    var j, k := BodyStart(i, t), BodyEnd(i, t);
    assert s[j..e] == s[j..k] + s[k..e];
  }

  lemma TagKid(t: Tree, tol: bool)
    requires Wf(t, tol) && t.major == TAG
    ensures t.kids == [t.kids[0]] && Wf(t.kids[0], tol)
    ensures EncodeAll(t.kids) == Encode(t.kids[0]) && Nesting(t) == Nesting(t.kids[0])
  {
    WfFirst(t.kids, tol);
    WfCons(t.kids[0], [], tol);
    assert [t.kids[0]] + [] == t.kids;
  }

  /** Whatever is skipped is an encoding of trees. */
  lemma {:induction false} SkipSound(s: seq<byte>, i: nat, n: nat, d: nat, tol: bool) returns (ts: seq<Tree>)
    requires SkipItems(s, i, n, d, tol).Ok? && i <= |s|
    ensures |ts| == n && TreesAt(s, i, ts, d, tol, SkipItems(s, i, n, d, tol).next)
    ensures SkipItems(s, i, n, d, tol) == Ok((), SkipItems(s, i, n, d, tol).next)
    decreases |s| - i
  {
    hide *;
    if n == 0 {
      ts := [];
      SkipNothing(s, i, d, tol, i);
      return;
    }
    SkipCases(s, i, n, d, tol);
    var it, j := DecodeHead(s, i, tol).value, DecodeHead(s, i, tol).next;
    if it.major == TAG {
      var us := SkipSound(s, j, n, d, tol);
      ts := SoundTag(s, i, us, d, tol, SkipItems(s, j, n, d, tol).next);
    } else if (it.major == ARRAY || it.major == MAP) && it.val > 0 {
      var m := if it.major == MAP then 2 * it.val else it.val;
      var kids := SkipSound(s, j, m, d - 1, tol);
      var k := SkipItems(s, j, m, d - 1, tol).next;
      var us := SkipSound(s, k, n - 1, d, tol);
      ts := SoundContainer(s, i, kids, k, us, d, tol, SkipItems(s, k, n - 1, d, tol).next);
    } else {
      var us := SkipSound(s, j, n - 1, d, tol);
      ts := SoundLeaf(s, i, us, d, tol, SkipItems(s, j, n - 1, d, tol).next);
    }
  }

  /** How a successful skip went on after the first head. */
  lemma SkipCases(s: seq<byte>, i: nat, n: nat, d: nat, tol: bool)
    requires SkipItems(s, i, n, d, tol).Ok? && i <= |s| && n > 0
    ensures DecodeHead(s, i, tol).Ok?
    ensures var it, j := DecodeHead(s, i, tol).value, DecodeHead(s, i, tol).next;
      i < j <= |s| &&
      if it.major == TAG then SkipItems(s, i, n, d, tol) == SkipItems(s, j, n, d, tol)
      else if (it.major == ARRAY || it.major == MAP) && it.val > 0 then
        var kids := SkipItems(s, j, if it.major == MAP then 2 * it.val else it.val, d - 1, tol);
        && d > 0 && kids.Ok? && j <= kids.next <= |s|
        && SkipItems(s, i, n, d, tol) == SkipItems(s, kids.next, n - 1, d, tol)
      else SkipItems(s, i, n, d, tol) == SkipItems(s, j, n - 1, d, tol)
  {
  }

  /** The first of several skipped items. */
  lemma {:induction false} SkipFirst(s: seq<byte>, i: nat, m: nat, d: nat, tol: bool)
    requires i <= |s| && SkipItems(s, i, m + 1, d, tol).Ok?
    ensures var r := SkipItems(s, i, 1, d, tol);
      r.Ok? && SkipItems(s, r.next, m, d, tol) == SkipItems(s, i, m + 1, d, tol)
    decreases |s| - i
  {
    hide DecodeHead;
    SkipCases(s, i, m + 1, d, tol);
    var it, j := DecodeHead(s, i, tol).value, DecodeHead(s, i, tol).next;
    if it.major == TAG {
      SkipFirst(s, j, m, d, tol);
    }
  }

  lemma SoundTag(s: seq<byte>, i: nat, us: seq<Tree>, d: nat, tol: bool, e: nat) returns (ts: seq<Tree>)
    requires DecodeHead(s, i, tol).Ok? && DecodeHead(s, i, tol).value.major == TAG
    requires us != [] && TreesAt(s, DecodeHead(s, i, tol).next, us, d, tol, e)
    ensures |ts| == |us| && TreesAt(s, i, ts, d, tol, e)
  {
    hide DecodeHead, HeadBytes, HeadOk, WfAll, EncodeAll, NestingAll, ArgWidth;
    var j := DecodeHead(s, i, tol).next;
    var h := HeadBytesPart(s, i, tol);
    ts := TagFirst(s[i] % 32, DecodeHead(s, i, tol).value.val, us, tol);
    assert s[i..e] == s[i..j] + s[j..e];
  }

  lemma TagFirst(ai: Info, val: u64, us: seq<Tree>, tol: bool) returns (ts: seq<Tree>)
    requires HeadOk(TAG, ai, val, tol) && us != [] && WfAll(us, tol)
    ensures |ts| == |us| && WfAll(ts, tol) && NestingAll(ts) == NestingAll(us)
    ensures EncodeAll(ts) == HeadBytes(TAG, ai, val) + EncodeAll(us)
  {
    WfFirst(us, tol);
    var t := TagOver(ai, val, us[0], tol);
    ts := [t] + us[1..];
    WfCons(t, us[1..], tol);
    WfCons(us[0], us[1..], tol);
    assert [us[0]] + us[1..] == us;
    assert EncodeAll(ts) == (HeadBytes(TAG, ai, val) + Encode(us[0])) + EncodeAll(us[1..]);
  }

  lemma SoundContainer(s: seq<byte>, i: nat, kids: seq<Tree>, k: nat, us: seq<Tree>, d: nat, tol: bool, e: nat)
    returns (ts: seq<Tree>)
    requires d > 0 && DecodeHead(s, i, tol).Ok?
    requires var it := DecodeHead(s, i, tol).value;
      || (it.major == ARRAY && |kids| == it.val > 0)
      || (it.major == MAP && |kids| == 2 * it.val > 0)
    requires TreesAt(s, DecodeHead(s, i, tol).next, kids, d - 1, tol, k) && TreesAt(s, k, us, d, tol, e)
    ensures |ts| == 1 + |us| && TreesAt(s, i, ts, d, tol, e)
  {
    hide DecodeHead, HeadBytes, HeadOk, ArgWidth;
    var it, j := DecodeHead(s, i, tol).value, DecodeHead(s, i, tol).next;
    var h := HeadBytesPart(s, i, tol);
    var t := Node(it.major, s[i] % 32, it.val, kids);
    ts := [t] + us;
    WfCons(t, us, tol);
    SliceSplit(s, i, j, k);
    SliceSplit(s, i, k, e);
  }

  lemma SoundLeaf(s: seq<byte>, i: nat, us: seq<Tree>, d: nat, tol: bool, e: nat) returns (ts: seq<Tree>)
    requires DecodeHead(s, i, tol).Ok?
    requires var it := DecodeHead(s, i, tol).value;
      it.major != TAG && (it.major == ARRAY || it.major == MAP ==> it.val == 0)
    requires TreesAt(s, DecodeHead(s, i, tol).next, us, d, tol, e)
    ensures |ts| == 1 + |us| && TreesAt(s, i, ts, d, tol, e)
  {
    var j := DecodeHead(s, i, tol).next;
    var t := LeafOf(s, i, tol);
    hide DecodeHead, Wf, Encode, Nesting;
    ts := [t] + us;
    WfCons(t, us, tol);
    SliceSplit(s, i, j, e);
  }

  /** The tree of a head that holds no other item. */
  lemma LeafOf(s: seq<byte>, i: nat, tol: bool) returns (t: Tree)
    requires DecodeHead(s, i, tol).Ok?
    requires var it := DecodeHead(s, i, tol).value;
      it.major != TAG && (it.major == ARRAY || it.major == MAP ==> it.val == 0)
    ensures Wf(t, tol) && Nesting(t) == 0 && Encode(t) == s[i..DecodeHead(s, i, tol).next]
  {
    var it := DecodeHead(s, i, tol).value;
    var h := HeadBytesPart(s, i, tol);
    if it.major == ARRAY || it.major == MAP {
      t := Node(it.major, s[i] % 32, it.val, []);
      assert EncodeAll([]) == [] && it.data == [];
    } else {
      t := Leaf(it.major, s[i] % 32, it.val, it.data);
    }
  }

  lemma TagOver(ai: Info, val: u64, kid: Tree, tol: bool) returns (t: Tree)
    requires HeadOk(TAG, ai, val, tol) && Wf(kid, tol)
    ensures t == Node(TAG, ai, val, [kid]) && Wf(t, tol)
    ensures Encode(t) == HeadBytes(TAG, ai, val) + Encode(kid) && Nesting(t) == Nesting(kid)
  {
    t := Node(TAG, ai, val, [kid]);
    assert [kid][1..] == [];
    WfCons(kid, [], tol);
    assert [kid] + [] == [kid];
  }

  lemma HeadBytesPart(s: seq<byte>, i: nat, tol: bool) returns (h: seq<byte>)
    requires DecodeHead(s, i, tol).Ok?
    ensures s[i] % 32 <= 27
    ensures var it, j := DecodeHead(s, i, tol).value, DecodeHead(s, i, tol).next;
      && HeadOk(it.major, s[i] % 32, it.val, tol) && h == HeadBytes(it.major, s[i] % 32, it.val)
      && s[i..j] == h + it.data
  {
    HeadBytesOfDecoded(s, i, tol);
    var it, j := DecodeHead(s, i, tol).value, DecodeHead(s, i, tol).next;
    var m := i + 1 + ArgWidth(s[i] % 32);
    h := s[i..m];
    assert s[i..j] == s[i..m] + s[m..j];
  }

  /** Skipping accepts exactly the grammar, up to the depth it is given. */
  lemma SkipIffGrammar(s: seq<byte>, i: nat, n: nat, d: nat, tol: bool, e: nat)
    requires |s| <= SIZE_MAX && i <= |s|
    ensures SkipItems(s, i, n, d, tol) == Ok((), e) <==> ItemsAt(s, i, n, d, tol, e)
  {
    if SkipItems(s, i, n, d, tol) == Ok((), e) {
      var ts := SkipSound(s, i, n, d, tol);
    }
    if ItemsAt(s, i, n, d, tol, e) {
      var ts: seq<Tree> :| TreesAt(s, i, ts, d, tol, e) && |ts| == n;
      SkipComplete(s, i, ts, d, tol, e);
    }
  }

  /** Skipping looks only at the bytes it skips. */
  lemma SkipFraming(s: seq<byte>, i: nat, n: nat, d: nat, tol: bool, t: seq<byte>, j: nat)
    requires i <= |s| && |t| <= SIZE_MAX && SkipItems(s, i, n, d, tol).Ok?
    requires SameSlice(s, i, t, j, SkipItems(s, i, n, d, tol).next - i)
    ensures SkipItems(t, j, n, d, tol) == Ok((), j + (SkipItems(s, i, n, d, tol).next - i))
  {
    var ts := SkipSound(s, i, n, d, tol);
    SkipComplete(t, j, ts, d, tol, j + (SkipItems(s, i, n, d, tol).next - i));
  }

  /** Trees with the same head are leaves or nodes alike, and as large. */
  lemma SameShape(t: Tree, u: Tree, tol: bool)
    requires Wf(t, tol) && Wf(u, tol) && t.major == u.major && t.ai == u.ai && t.val == u.val
    ensures t.Leaf? <==> u.Leaf?
    ensures t.Leaf? ==> |t.data| == |u.data|
    ensures t.Node? ==> |t.kids| == |u.kids|
  {
    hide WfAll, HeadOk;
  }

  /** Trees encoded at one place are determined by the bytes there. */
  lemma {:induction false} TreesUnique(s: seq<byte>, i: nat, ts: seq<Tree>, d: nat, e: nat,
                                       us: seq<Tree>, d': nat, e': nat, tol: bool)
    requires |ts| == |us|
    requires TreesAt(s, i, ts, d, tol, e) && TreesAt(s, i, us, d', tol, e')
    ensures ts == us
    decreases e - i
  {
    hide TreesAt, Wf, Encode, HeadArgument, Nesting, EncodeAll, NestingAll;
    if ts != [] {
      var t, u := ts[0], us[0];
      FirstAt(s, i, ts, d, tol, e);
      FirstAt(s, i, us, d', tol, e');
      SameShape(t, u, tol);
      var j, k, k' := BodyStart(i, t), BodyEnd(i, t), BodyEnd(i, u);
      if t.Node? {
        TreesUnique(s, j, t.kids, NestingAll(t.kids), k, u.kids, NestingAll(u.kids), k', tol);
      }
      TreesUnique(s, k, ts[1..], d, e, us[1..], d', e', tol);
      assert ts == [t] + ts[1..] && us == [u] + us[1..];
    }
  }
}
