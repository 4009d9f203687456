/**
 Which maps the label loop of the key decoder takes, and what it collects, spelled out by label (section 7 of
 RFC 9052).
 */
module KeyLoop {
  import opened Wire
  import opened Cbor
  import opened CborRoundTrip
  import opened Header
  import opened Keys

  /** An entry: its label, where its value starts, and where it ends. */
  datatype KeyItem = KeyItem(lbl: i64, at: nat, end: nat)

  predicate IntStands(s: seq<byte>, i: nat, e: nat) {
    var r := DecodeInt(s, i, false);
    r.Ok? && r.next == e && -0x8000_0000 <= r.value <= 0x7FFF_FFFF
  }

  predicate StringStands(s: seq<byte>, i: nat, e: nat) {
    DecodeBstr(s, i, false).Ok? && DecodeBstr(s, i, false).next == e
  }

  predicate ItemStands(s: seq<byte>, i: nat, e: nat) {
    Skip(s, i, false).Ok? && Skip(s, i, false).next == e
  }

  /** The value under a label: a key type of 31 bits under 1, a byte string under 2, an algorithm of 32 bits under 3,
      no operations under 4; a curve of 32 bits or a byte string under -1, byte strings under -2 to -4, and any
      item under another label. */
  predicate KeyValueStands(s: seq<byte>, i: nat, lbl: i64, e: nat) {
    if lbl == 1 then DecodeUint(s, i, false).Ok? && DecodeUint(s, i, false).next == e && DecodeUint(s, i, false).value <= 0x7FFF_FFFF
    else if lbl == 2 || lbl == -2 || lbl == -3 || lbl == -4 then StringStands(s, i, e)
    else if lbl == 3 then IntStands(s, i, e)
    else if lbl == 4 then false
    else if lbl == -1 then IntStands(s, i, e) || StringStands(s, i, e)
    else ItemStands(s, i, e)
  }

  /** Entries in a row from `i` up to `e`, each with an integer label. */
  predicate ItemsInRow(s: seq<byte>, i: nat, xs: seq<KeyItem>, e: nat)
    decreases |xs|
  {
    if xs == [] then i == e
    else
      var x := xs[0];
      && DecodeInt(s, i, false) == Ok(x.lbl, x.at) && KeyValueStands(s, x.at, x.lbl, x.end) && ItemsInRow(s, x.end, xs[1..], e)
  }

  predicate DistinctItems(xs: seq<KeyItem>) {
    forall a, b :: 0 <= a < b < |xs| ==> xs[a].lbl != xs[b].lbl
  }

  // ----- What is collected -----

  /** The byte string of a label among what was collected. */
  function StringUnder(p: Parts, n: int): (b: Option<seq<byte>>) {
    if n == 2 then p.info.kid
    else if n == -1 then p.n
    else if n == -2 then p.x
    else if n == -3 then p.y
    else if n == -4 then p.d
    else if n == -5 then p.q
    else if n == -6 then p.dp
    else if n == -7 then p.dq
    else if n == -8 then p.qi
    else None
  }

  /** The number of a label. */
  function NumberUnder(p: Parts, n: int): (v: int) {
    if n == 1 then p.info.kty else if n == 3 then p.info.alg else if n == -1 then p.info.crv else 0
  }

  predicate IsString(s: seq<byte>, x: KeyItem) {
    StringStands(s, x.at, x.end)
  }

  /** A number of an RSA key that is not a byte string. */
  predicate BadNumber(s: seq<byte>, x: KeyItem) {
    -8 <= x.lbl <= -5 && !IsString(s, x)
  }

  /** What one entry adds. */
  ghost predicate Adds(s: seq<byte>, x: KeyItem, p: Parts, q: Parts) {
    && (forall n :: n != x.lbl ==> StringUnder(q, n) == StringUnder(p, n) && NumberUnder(q, n) == NumberUnder(p, n))
    && ((x.lbl == 2 || -8 <= x.lbl <= -1) && IsString(s, x) ==> StringUnder(q, x.lbl) == Some(DecodeBstr(s, x.at, false).value))
    && ((x.lbl == 2 || -8 <= x.lbl <= -1) && !IsString(s, x) ==> StringUnder(q, x.lbl) == StringUnder(p, x.lbl))
    && ((x.lbl == 1 || x.lbl == 3 || x.lbl == -1) && !IsString(s, x) ==>
          DecodeInt(s, x.at, false).Ok? && NumberUnder(q, x.lbl) == DecodeInt(s, x.at, false).value)
    && (IsString(s, x) ==> NumberUnder(q, x.lbl) == NumberUnder(p, x.lbl))
    && (q.rsaTypes <==> p.rsaTypes && !BadNumber(s, x))
  }

  lemma UintIsInt(s: seq<byte>, i: nat)
    ensures DecodeUint(s, i, false).Ok? && DecodeUint(s, i, false).value <= INT64_MAX ==>
      DecodeInt(s, i, false) == Ok(DecodeUint(s, i, false).value, DecodeUint(s, i, false).next)
  {
  }

  lemma Types(s: seq<byte>, i: nat)
    ensures DecodeInt(s, i, false).Ok? ==> i < |s| && (PeekType(s, i) == UINT || PeekType(s, i) == NEGINT)
    ensures DecodeUint(s, i, false).Ok? ==> i < |s| && PeekType(s, i) == UINT
    ensures DecodeBstr(s, i, false).Ok? ==> i < |s| && PeekType(s, i) == BSTR
  {
  }

  lemma StringIsItem(s: seq<byte>, i: nat)
    ensures PeekType(s, i) == BSTR ==> (DecodeBstr(s, i, false).Ok? <==> Skip(s, i, false).Ok?)
    ensures DecodeBstr(s, i, false).Ok? ==> Skip(s, i, false).Ok? && Skip(s, i, false).next == DecodeBstr(s, i, false).next
  {
    hide DecodeBstr, Skip, PeekType;
    BstrSkip(s, i);
  }

  /** One step of the loop. */
  lemma StepExactly(s: seq<byte>, x: KeyItem, p: Parts)
    ensures var r := DecodeEntry(s, x.at, x.lbl, p);
      && (r.Ok? && r.next == x.end <==> KeyValueStands(s, x.at, x.lbl, x.end))
      && (r.Ok? && r.next == x.end ==> Adds(s, x, p, r.value))
  {
    hide DecodeInt, DecodeUint, DecodeBstr, Skip, PeekType;
    UintIsInt(s, x.at);
    Types(s, x.at);
    StringIsItem(s, x.at);
  }

  /** What a whole row adds: a field under a label is that of the entry with the label, and otherwise as before. */
  ghost predicate AllAdded(s: seq<byte>, xs: seq<KeyItem>, p: Parts, q: Parts) {
    && (forall k :: 0 <= k < |xs| && (xs[k].lbl == 2 || -8 <= xs[k].lbl <= -1) ==>
          StringUnder(q, xs[k].lbl) == if IsString(s, xs[k]) then Some(DecodeBstr(s, xs[k].at, false).value)
                                       else StringUnder(p, xs[k].lbl))
    && (forall k :: 0 <= k < |xs| && (xs[k].lbl == 1 || xs[k].lbl == 3 || xs[k].lbl == -1) ==>
          if IsString(s, xs[k]) then NumberUnder(q, xs[k].lbl) == NumberUnder(p, xs[k].lbl)
          else DecodeInt(s, xs[k].at, false).Ok? && NumberUnder(q, xs[k].lbl) == DecodeInt(s, xs[k].at, false).value)
    && (forall n :: (forall k :: 0 <= k < |xs| ==> xs[k].lbl != n) ==>
          StringUnder(q, n) == StringUnder(p, n) && NumberUnder(q, n) == NumberUnder(p, n))
    && (q.rsaTypes <==> p.rsaTypes && forall k :: 0 <= k < |xs| ==> !BadNumber(s, xs[k]))
  }

  lemma AddedNone(s: seq<byte>, p: Parts)
    ensures AllAdded(s, [], p, p)
  {
    hide StringUnder, NumberUnder, IsString;
  }

  lemma AddedCons(s: seq<byte>, x: KeyItem, rest: seq<KeyItem>, p: Parts, m: Parts, q: Parts)
    requires Adds(s, x, p, m) && AllAdded(s, rest, m, q) && forall k :: 0 <= k < |rest| ==> rest[k].lbl != x.lbl
    ensures AllAdded(s, [x] + rest, p, q)
  {
    hide StringUnder, NumberUnder, IsString, BadNumber, DecodeInt, DecodeBstr;
    var xs := [x] + rest;
    assert forall k :: 0 < k < |xs| ==> xs[k] == rest[k - 1];
    assert forall k :: 0 <= k < |rest| ==> rest[k] == xs[k + 1];
    BadsCons(s, x, rest);
    forall n | forall k :: 0 <= k < |xs| ==> xs[k].lbl != n
      ensures StringUnder(q, n) == StringUnder(p, n) && NumberUnder(q, n) == NumberUnder(p, n)
    {
      assert xs[0].lbl != n;
      assert forall k :: 0 <= k < |rest| ==> rest[k].lbl != n;
    }
  }

  lemma BadsCons(s: seq<byte>, x: KeyItem, rest: seq<KeyItem>)
    ensures (forall k :: 0 <= k < |[x] + rest| ==> !BadNumber(s, ([x] + rest)[k]))
       <==> !BadNumber(s, x) && forall k :: 0 <= k < |rest| ==> !BadNumber(s, rest[k])
  {
    hide BadNumber;
    var xs := [x] + rest;
    assert xs[0] == x && forall k :: 0 <= k < |rest| ==> rest[k] == xs[k + 1];
    assert forall k :: 0 < k < |xs| ==> xs[k] == rest[k - 1];
  }

  /** None of the labels was seen. */
  predicate Unseen(xs: seq<KeyItem>, seen: set<Label>) {
    forall k :: 0 <= k < |xs| ==> IntLabel(xs[k].lbl) !in seen
  }

  lemma LabelExactly(s: seq<byte>, i: nat)
    ensures KeyLabel(s, i).Ok? <==> DecodeInt(s, i, false).Ok?
    ensures KeyLabel(s, i).Ok? ==> KeyLabel(s, i) == DecodeInt(s, i, false)
  {
    hide DecodeInt;
    Types(s, i);
  }

  /** Every loop that ends was over entries in a row, and collected them. */
  lemma {:induction false} LoopStands(s: seq<byte>, i: nat, n: nat, seen: set<Label>, p: Parts) returns (xs: seq<KeyItem>)
    requires DecodeEntries(s, i, n, seen, p).Ok?
    ensures var r := DecodeEntries(s, i, n, seen, p);
      |xs| == n && ItemsInRow(s, i, xs, r.next) && DistinctItems(xs) && Unseen(xs, seen) && AllAdded(s, xs, p, r.value)
    decreases n
  {
    hide KeyLabel, DecodeEntry, DecodeInt, KeyValueStands, Adds, AllAdded;
    if n == 0 {
      xs := [];
      AddedNone(s, p);
    } else {
      LabelExactly(s, i);
      var l := KeyLabel(s, i);
      var r := DecodeEntry(s, l.next, l.value, p);
      var x := KeyItem(l.value, l.next, r.next);
      StepExactly(s, x, p);
      var rest := LoopStands(s, r.next, n - 1, seen + {IntLabel(x.lbl)}, r.value);
      xs := [x] + rest;
      assert xs[1..] == rest;
      NotAgain(x, rest, seen);
      AddedCons(s, x, rest, p, r.value, DecodeEntries(s, i, n, seen, p).value);
    }
  }

  lemma NotAgain(x: KeyItem, rest: seq<KeyItem>, seen: set<Label>)
    requires Unseen(rest, seen + {IntLabel(x.lbl)}) && DistinctItems(rest) && IntLabel(x.lbl) !in seen
    ensures DistinctItems([x] + rest) && Unseen([x] + rest, seen)
    ensures forall k :: 0 <= k < |rest| ==> rest[k].lbl != x.lbl
  {
    forall k | 0 <= k < |rest|
      ensures rest[k].lbl != x.lbl && IntLabel(rest[k].lbl) !in seen
    {
      assert IntLabel(rest[k].lbl) !in seen + {IntLabel(x.lbl)};
    }
  }

  /** Entries in a row are taken by the loop. */
  lemma {:induction false} StandsLoop(s: seq<byte>, i: nat, xs: seq<KeyItem>, seen: set<Label>, p: Parts, e: nat)
    requires ItemsInRow(s, i, xs, e) && DistinctItems(xs) && Unseen(xs, seen)
    ensures DecodeEntries(s, i, |xs|, seen, p).Ok? && DecodeEntries(s, i, |xs|, seen, p).next == e
    decreases |xs|
  {
    hide KeyLabel, DecodeEntry, DecodeInt, KeyValueStands, Adds;
    if xs != [] {
      var x := xs[0];
      LabelExactly(s, i);
      StepExactly(s, x, p);
      assert forall k :: 0 <= k < |xs[1..]| ==> xs[1..][k] == xs[k + 1];
      StandsLoop(s, x.end, xs[1..], seen + {IntLabel(x.lbl)}, DecodeEntry(s, x.at, x.lbl, p).value, e);
    }
  }

  /** The map of a key stands at the start, up to `e`. */
  ghost predicate KeyMapStands(s: seq<byte>, xs: seq<KeyItem>, e: nat) {
    var m := DecodeMap(s, 0, false);
    m.Ok? && m.value == |xs| <= MAX_MAP_ITEMS && ItemsInRow(s, m.next, xs, e) && DistinctItems(xs)
  }

  /** A key is taken apart if and only if it begins with a map of integer labels, all distinct, whose values have the
      types of their labels; every part is then the value under its label, or missing when there is no such label. */
  lemma LoopExactly(s: seq<byte>, e: nat)
    ensures KeyParts(s).Ok? && KeyParts(s).next == e <==> exists xs :: KeyMapStands(s, xs, e)
    ensures forall xs :: KeyMapStands(s, xs, e) ==> KeyParts(s).Ok? && AllAdded(s, xs, NO_PARTS, KeyParts(s).value)
  {
    hide DecodeMap, DecodeEntries, ItemsInRow, DistinctItems, AllAdded;
    if KeyParts(s).Ok? {
      var xs := Collected(s);
      assert KeyMapStands(s, xs, KeyParts(s).next);
    }
    forall xs | KeyMapStands(s, xs, e)
      ensures KeyParts(s).Ok? && KeyParts(s).next == e && AllAdded(s, xs, NO_PARTS, KeyParts(s).value)
    {
      StandsLoop(s, DecodeMap(s, 0, false).next, xs, {}, NO_PARTS, e);
      var ys := Collected(s);
      SameItems(s, DecodeMap(s, 0, false).next, xs, ys, e);
    }
  }

  lemma Collected(s: seq<byte>) returns (xs: seq<KeyItem>)
    requires KeyParts(s).Ok?
    ensures KeyMapStands(s, xs, KeyParts(s).next) && AllAdded(s, xs, NO_PARTS, KeyParts(s).value)
  {
    hide DecodeMap, DecodeEntries, ItemsInRow, DistinctItems, AllAdded;
    var m := DecodeMap(s, 0, false);
    xs := LoopStands(s, m.next, m.value, {}, NO_PARTS);
  }

  /** The entries are determined by the bytes. */
  lemma {:induction false} SameItems(s: seq<byte>, i: nat, xs: seq<KeyItem>, ys: seq<KeyItem>, e: nat)
    requires |xs| == |ys| && ItemsInRow(s, i, xs, e) && ItemsInRow(s, i, ys, e)
    ensures xs == ys
    decreases |xs|
  {
    hide DecodeInt, KeyValueStands;
    if xs != [] {
      SameEnd(s, xs[0], ys[0]);
      SameItems(s, xs[0].end, xs[1..], ys[1..], e);
      assert xs == [xs[0]] + xs[1..] && ys == [ys[0]] + ys[1..];
    }
  }

  lemma SameEnd(s: seq<byte>, x: KeyItem, y: KeyItem)
    requires x.lbl == y.lbl && x.at == y.at
    requires KeyValueStands(s, x.at, x.lbl, x.end) && KeyValueStands(s, y.at, y.lbl, y.end)
    ensures x == y
  {
    hide DecodeInt, DecodeUint, DecodeBstr, Skip;
    Types(s, x.at);
  }
}
