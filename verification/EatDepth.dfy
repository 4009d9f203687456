/**
 Scanning a claims map again for a repeated label: what the scan answers, and the one way in
 which it refuses entries that were accepted when they were read the first time.
 */
module EatDepth {
  import opened Wire
  import opened Cbor
  import opened CborGrammar
  import opened CborRoundTrip
  import opened NestedArrays
  import opened Eat
  import opened EatLemmas

  /** The value of entry `k` can be skipped. */
  predicate Skips(s: seq<byte>, ats: seq<nat>, k: nat)
    requires k < |ats|
  {
    DecodeKey(s, ats[k]).Ok? && Skip(s, DecodeKey(s, ats[k]).next, true).Ok?
  }

  /** From entry `a` on, entry `k` is the first with a value that cannot be skipped, and the key
      is not found up to there. */
  predicate Blocks(s: seq<byte>, ps: seq<Pair>, ats: seq<nat>, a: nat, key: MapKey, k: nat)
    requires |ats| == |ps| + 1
  {
    a <= k < |ps| && !Skips(s, ats, k) && forall j :: a <= j <= k ==> ps[j].key != key
  }

  predicate Blocked(s: seq<byte>, ps: seq<Pair>, ats: seq<nat>, a: nat, key: MapKey)
    requires |ats| == |ps| + 1
  {
    exists k :: a <= k < |ps| && Blocks(s, ps, ats, a, key, k)
  }

  /** The key is that of an entry from `a` on. */
  predicate Among(ps: seq<Pair>, a: nat, key: MapKey) {
    exists k :: a <= k < |ps| && ps[k].key == key
  }

  lemma BlockedStep(s: seq<byte>, ps: seq<Pair>, ats: seq<nat>, a: nat, key: MapKey)
    requires |ats| == |ps| + 1 && a < |ps|
    ensures Blocked(s, ps, ats, a, key)
       <==> ps[a].key != key && (!Skips(s, ats, a) || Blocked(s, ps, ats, a + 1, key))
    ensures Among(ps, a, key) <==> ps[a].key == key || Among(ps, a + 1, key)
  {
    hide Skips;
    if ps[a].key != key && !Skips(s, ats, a) {
      assert Blocks(s, ps, ats, a, key, a);
    }
    if ps[a].key != key && Blocked(s, ps, ats, a + 1, key) {
      var k :| a + 1 <= k < |ps| && Blocks(s, ps, ats, a + 1, key, k);
      assert Blocks(s, ps, ats, a, key, k);
    }
    if Blocked(s, ps, ats, a, key) {
      var k :| a <= k < |ps| && Blocks(s, ps, ats, a, key, k);
      assert k > a ==> Blocks(s, ps, ats, a + 1, key, k);
    }
  }

  lemma SuffixSkips(s: seq<byte>, m: nat, j: nat)
    requires m <= j <= |s| <= SIZE_MAX
    ensures Skip(s[m..], j - m, true).Ok? <==> Skip(s, j, true).Ok?
    ensures Skip(s, j, true).Ok? ==> Skip(s[m..], j - m, true) == Ok((), Skip(s, j, true).next - m)
  {
    hide SkipItems, SameSlice;
    if Skip(s, j, true).Ok? {
      Suffix(s, m, j, Skip(s, j, true).next);
      SkipFraming(s, j, 1, CBOR_MAX_DEPTH, true, s[m..], j - m);
    }
    if Skip(s[m..], j - m, true).Ok? {
      SuffixSkip(s, m, j);
    }
  }

  lemma ScanEnds(s: seq<byte>, i: nat, n: nat, key: MapKey)
    ensures PriorFrom(s, i, n, i, key) == Ok(false, i)
  {
  }

  lemma ScanStep(s: seq<byte>, i: nat, n: nat, before: nat, key: MapKey)
    requires i < before && n > 0
    ensures var prior := DecodeKey(s, i); var r := PriorFrom(s, i, n, before, key);
      && (prior.Err? ==> r.Err?)
      && (prior.Ok? && prior.value == key ==> r.Ok? && r.value)
      && (prior.Ok? && prior.value != key ==>
            var e := Skip(s, prior.next, true);
            if e.Err? then r.Err? else r == PriorFrom(s, e.next, n - 1, before, key))
  {
    hide DecodeKey, Skip;
  }

  /** The scan over entries that were accepted: it is refused exactly when a value that comes
      before the key cannot be skipped, and otherwise it answers whether the key is there. */
  lemma {:induction false} ScanExact(shape: Shape, s: seq<byte>, m: nat, ps: seq<Pair>, ats: seq<nat>, a: nat, n: nat,
                                     key: MapKey)
    requires Walked(shape, s, ps, ats) && a <= |ps| == |ats| - 1 && |s| <= SIZE_MAX && |ps| - a <= n
    requires m <= ats[a] <= ats[|ps|] <= |s|
    ensures var r := PriorFrom(s[m..], ats[a] - m, n, ats[|ps|] - m, key);
      && (r.Err? <==> Blocked(s, ps, ats, a, key))
      && (r.Ok? ==> (r.value <==> Among(ps, a, key)))
    decreases |ps| - a
  {
    hide DecodeKey, ValueAt, Skip, PriorFrom, Walked, Blocks, Blocked, Among;
    if a == |ps| {
      ScanEnds(s[m..], ats[a] - m, n, key);
      NoneLeft(s, ps, ats, key);
    } else {
      EntryOf(shape, s, ps, ats, a);
      WalkedUp(shape, s, ps, ats, a, |ps|);
      WalkedUp(shape, s, ps, ats, a + 1, |ps|);
      var i, j := ats[a], DecodeKey(s, ats[a]).next;
      SuffixKey(s, m, i);
      ScanStep(s[m..], i - m, n, ats[|ps|] - m, key);
      SuffixSkips(s, m, j);
      BlockedStep(s, ps, ats, a, key);
      if Skip(s, j, true).Ok? {
        ValueSkip(shape, s, j, ps[a].key, ps[..a]);
        ScanExact(shape, s, m, ps, ats, a + 1, n - 1, key);
      }
    }
  }

  lemma NoneLeft(s: seq<byte>, ps: seq<Pair>, ats: seq<nat>, key: MapKey)
    requires |ats| == |ps| + 1
    ensures !Blocked(s, ps, ats, |ps|, key) && !Among(ps, |ps|, key)
  {
  }

  // ----- Which values can be skipped -----

  /** Only a list of components can be read but not skipped. */
  lemma ReadableSkips(shape: Shape, s: seq<byte>, j: nat, key: MapKey, ps: seq<Pair>)
    requires ValueAt(shape, s, j, key, ps).Ok?
    requires shape.ClaimsMap? ==> KnownOf(key).None? || KnownOf(key).value.claim != Components
    ensures Skip(s, j, true).Ok?
  {
    hide SkipItems, ComponentsAt, ScalarClaim, Mixed, Seen, KnownOf, SeenNumber, DecodeHead;
    if shape.ClaimsMap? {
      if KnownOf(key).Some? {
        ScalarHead(s, j, KnownOf(key).value);
        SkipOfHead(s, j, CBOR_MAX_DEPTH, true);
      }
    } else if Number(key).Some? && Number(key).value in {1, 2, 4, 5, 6} {
      SkipOfHead(s, j, CBOR_MAX_DEPTH, true);
    }
  }

  /** Entry `k` is the list of components, and it cannot be skipped: it nests too deeply. */
  predicate DeepComponents(s: seq<byte>, ps: seq<Pair>, ats: seq<nat>, k: nat)
    requires |ats| == |ps| + 1 && k < |ps|
  {
    KnownOf(ps[k].key).Some? && KnownOf(ps[k].key).value.claim == Components && !Skips(s, ats, k)
  }

  /** Scanning the claims read so far is refused exactly when the list of components, accepted
      before, cannot be skipped and the key is not found before it; otherwise the answer is
      whether the key was read. */
  lemma ClaimsScanExact(s: seq<byte>, ps: seq<Pair>, ats: seq<nat>, n: nat, key: MapKey)
    requires Walked(ClaimsMap, s, ps, ats) && |s| <= SIZE_MAX && |ps| <= n
    requires DecodeMap(s, 0, true) == Ok(n, ats[0]) && ats[|ps|] <= |s|
    ensures var r := HasPrior(s, ats[|ps|], key);
      && (r.Err? <==> exists k :: 0 <= k < |ps| && DeepComponents(s, ps, ats, k)
                                 && forall j :: 0 <= j <= k ==> ps[j].key != key)
      && (r.Ok? ==> (r.value <==> exists k :: 0 <= k < |ps| && ps[k].key == key))
  {
    hide PriorFrom, Skips, DecodeKey, ValueAt, DecodeContainer, KnownOf;
    assert s[0..] == s;
    WalkedUp(ClaimsMap, s, ps, ats, 0, |ps|);
    ScanExact(ClaimsMap, s, 0, ps, ats, 0, n, key);
    forall k | 0 <= k < |ps|
      ensures !Skips(s, ats, k) <==> DeepComponents(s, ps, ats, k)
    {
      if KnownOf(ps[k].key).None? || KnownOf(ps[k].key).value.claim != Components {
        EntrySkips(ClaimsMap, s, ps, ats, k);
      }
    }
    if Blocked(s, ps, ats, 0, key) {
      var k :| 0 <= k < |ps| && Blocks(s, ps, ats, 0, key, k);
      assert DeepComponents(s, ps, ats, k);
    }
    if k :| 0 <= k < |ps| && DeepComponents(s, ps, ats, k) && forall j :: 0 <= j <= k ==> ps[j].key != key {
      assert Blocks(s, ps, ats, 0, key, k);
    }
  }

  lemma EntrySkips(shape: Shape, s: seq<byte>, ps: seq<Pair>, ats: seq<nat>, k: nat)
    requires Walked(shape, s, ps, ats) && k < |ps| < |ats|
    requires shape.ClaimsMap? ==> KnownOf(ps[k].key).None? || KnownOf(ps[k].key).value.claim != Components
    ensures Skips(s, ats, k)
  {
    hide DecodeKey, ValueAt, Skip, Walked, KnownOf;
    EntryOf(shape, s, ps, ats, k);
    ReadableSkips(shape, s, DecodeKey(s, ats[k]).next, ps[k].key, ps[..k]);
  }

  /** Scanning the entries of a component is never refused. */
  lemma ComponentScanExact(s: seq<byte>, m: nat, ps: seq<Pair>, ats: seq<nat>, n: nat, key: MapKey)
    requires Walked(ComponentMap, s, ps, ats) && |s| <= SIZE_MAX && |ps| <= n
    requires m <= ats[0] && m <= ats[|ps|] <= |s| && DecodeMap(s[m..], 0, true) == Ok(n, ats[0] - m)
    ensures var r := HasPrior(s[m..], ats[|ps|] - m, key);
      r.Ok? && (r.value <==> exists k :: 0 <= k < |ps| && ps[k].key == key)
  {
    hide PriorFrom, Skips, DecodeKey, ValueAt, DecodeContainer;
    WalkedUp(ComponentMap, s, ps, ats, 0, |ps|);
    ScanExact(ComponentMap, s, m, ps, ats, 0, n, key);
    forall k | 0 <= k < |ps|
      ensures Skips(s, ats, k)
    {
      EntrySkips(ComponentMap, s, ps, ats, k);
    }
  }

  // ----- A list that is read but not skipped -----

  /** A list of one component: two hashes of 32 zeros, and an unknown entry that nests as deeply
      as one value may. */
  function DeepList(): (b: seq<byte>)
    ensures |b| == CBOR_MAX_DEPTH + 74
  {
    [0x81, 0xA3, 0x02, 0x58, 0x20] + Hash() + [0x05, 0x58, 0x20] + Hash() + [0x07] + Deep(CBOR_MAX_DEPTH)
  }

  function Hash(): (h: seq<byte>)
    ensures |h| == 32
  {
    seq(32, _ => 0)
  }

  lemma DeepListBytes(s: seq<byte>, p: nat)
    requires SameSlice(DeepList(), 0, s, p, |DeepList()|)
    ensures p + CBOR_MAX_DEPTH + 74 <= |s|
    ensures s[p] == 0x81 && s[p + 1] == 0xA3 && s[p + 2] == 0x02 && s[p + 3] == 0x58 && s[p + 4] == 0x20
    ensures s[p + 37] == 0x05 && s[p + 38] == 0x58 && s[p + 39] == 0x20 && s[p + 72] == 0x07
    ensures SameSlice(Deep(CBOR_MAX_DEPTH), 0, s, p + 73, CBOR_MAX_DEPTH + 1)
  {
    hide Deep;
    var v, d := DeepList(), Deep(CBOR_MAX_DEPTH);
    SameSliceAt(v, 0, s, p, |v|, 0);
    SameSliceAt(v, 0, s, p, |v|, 1);
    SameSliceAt(v, 0, s, p, |v|, 2);
    SameSliceAt(v, 0, s, p, |v|, 3);
    SameSliceAt(v, 0, s, p, |v|, 4);
    SameSliceAt(v, 0, s, p, |v|, 37);
    SameSliceAt(v, 0, s, p, |v|, 38);
    SameSliceAt(v, 0, s, p, |v|, 39);
    SameSliceAt(v, 0, s, p, |v|, 72);
    var f := [0x81, 0xA3, 0x02, 0x58, 0x20] + Hash() + [0x05, 0x58, 0x20] + Hash() + [0x07];
    assert v == f + d && |f| == 73;
    BehindFront(f, d);
    SameSlicePart(v, 0, s, p, |v|, 73, |d|);
  }

  lemma BehindFront(f: seq<byte>, d: seq<byte>)
    ensures (f + d)[|f|..|f| + |d|] == d == d[0..|d|]
  {
  }

  /** A byte string of 32 bytes. */
  lemma HashHead(s: seq<byte>, i: nat)
    requires i + 34 <= |s| && s[i] == 0x58 && s[i + 1] == 0x20
    ensures DecodeHead(s, i, true) == Ok(Item(BSTR, 32, s[i + 2..i + 34]), i + 34)
  {
    assert s[i + 1..i + 2] == [0x20];
  }

  /** The heads in the list, in front of the deep value. */
  lemma DeepListHeads(s: seq<byte>, p: nat)
    requires SameSlice(DeepList(), 0, s, p, |DeepList()|)
    ensures p + CBOR_MAX_DEPTH + 74 <= |s|
    ensures DecodeHead(s, p, true) == Ok(Item(ARRAY, 1, []), p + 1)
    ensures DecodeHead(s, p + 1, true) == Ok(Item(MAP, 3, []), p + 2)
    ensures DecodeHead(s, p + 2, true) == Ok(Item(UINT, 2, []), p + 3)
    ensures DecodeHead(s, p + 3, true) == Ok(Item(BSTR, 32, s[p + 5..p + 37]), p + 37)
    ensures DecodeHead(s, p + 37, true) == Ok(Item(UINT, 5, []), p + 38)
    ensures DecodeHead(s, p + 38, true) == Ok(Item(BSTR, 32, s[p + 40..p + 72]), p + 72)
    ensures DecodeHead(s, p + 72, true) == Ok(Item(UINT, 7, []), p + 73)
    ensures SameSlice(Deep(CBOR_MAX_DEPTH), 0, s, p + 73, CBOR_MAX_DEPTH + 1)
  {
    hide DecodeHead, SameSlice, Deep, DeepList;
    DeepListBytes(s, p);
    ByteHead(s, p, true);
    ByteHead(s, p + 1, true);
    ByteHead(s, p + 2, true);
    HashHead(s, p + 3);
    ByteHead(s, p + 37, true);
    HashHead(s, p + 38);
    ByteHead(s, p + 72, true);
  }

  lemma DeepListNotSkipped(s: seq<byte>, p: nat)
    requires SameSlice(DeepList(), 0, s, p, |DeepList()|)
    ensures Skip(s, p, true).Err?
  {
    hide DecodeHead, SkipItems, SameSlice, Deep, DeepList;
    DeepListHeads(s, p);
    var left := CBOR_MAX_DEPTH - 2;
    SkipContainer(s, p, 1, CBOR_MAX_DEPTH, true);
    SkipContainer(s, p + 1, 1, CBOR_MAX_DEPTH - 1, true);
    SkipPlain(s, p + 2, 6, left, true);
    SkipPlain(s, p + 3, 5, left, true);
    SkipPlain(s, p + 37, 4, left, true);
    SkipPlain(s, p + 38, 3, left, true);
    SkipPlain(s, p + 72, 2, left, true);
    DeepSkip(CBOR_MAX_DEPTH, s, p + 73, left, true);
  }

  /** One more entry of a component is read. */
  lemma ReadEntry(s: seq<byte>, m: nat, ps: seq<Pair>, ats: seq<nat>, n: nat, k: nat, p: Pair, e: nat)
    requires Walked(ComponentMap, s, ps, ats) && |ats| == |ps| + 1 && |s| <= SIZE_MAX && |ps| <= n && k > 0
    requires m <= ats[0] && m <= ats[|ps|] <= |s| && DecodeMap(s[m..], 0, true) == Ok(n, ats[0] - m)
    requires DecodeKey(s, ats[|ps|]).Ok? && DecodeKey(s, ats[|ps|]).value == p.key
    requires ComponentValue(s, DecodeKey(s, ats[|ps|]).next, p.key, ps) == Ok(p.value, e)
    requires forall j :: 0 <= j < |ps| ==> ps[j].key != p.key
    ensures Pairs(ComponentMap, s, m, ats[|ps|], k, ps) == Pairs(ComponentMap, s, m, e, k - 1, ps + [p])
    ensures Walked(ComponentMap, s, ps + [p], ats + [e])
  {
    hide Pairs, DecodeKey, ComponentValue, DecodeContainer, HasPrior, Walked, Skip, KnownOf, ComponentsAt;
    ComponentScanExact(s, m, ps, ats, n, p.key);
    PairsUnfold(ComponentMap, s, m, ats[|ps|], k, ps);
    WalkedMore(ComponentMap, s, ps, ats, p, e);
  }

  /** The deep list as it is read. */
  function DeepPairs(s: seq<byte>, p: nat): (ps: seq<Pair>)
    requires p + 74 <= |s|
  {
    [Pair(Unsigned(2), Str(s[p + 5..p + 37])), Pair(Unsigned(5), Str(s[p + 40..p + 72])), Pair(Unsigned(7), Skipped)]
  }

  lemma DeepValues(s: seq<byte>, p: nat)
    requires SameSlice(DeepList(), 0, s, p, |DeepList()|)
    ensures p + CBOR_MAX_DEPTH + 74 <= |s|
    ensures DecodeKey(s, p + 2) == Ok(Unsigned(2), p + 3) && DecodeKey(s, p + 37) == Ok(Unsigned(5), p + 38)
    ensures DecodeKey(s, p + 72) == Ok(Unsigned(7), p + 73)
    ensures var ps := DeepPairs(s, p);
      && ComponentValue(s, p + 3, Unsigned(2), []) == Ok(ps[0].value, p + 37)
      && ComponentValue(s, p + 38, Unsigned(5), [ps[0]]) == Ok(ps[1].value, p + 72)
      && ComponentValue(s, p + 73, Unsigned(7), [ps[0], ps[1]]) == Ok(Skipped, p + CBOR_MAX_DEPTH + 74)
  {
    hide DecodeHead, SkipItems, SameSlice, Deep, DeepList;
    DeepListHeads(s, p);
    DeepSkip(CBOR_MAX_DEPTH, s, p + 73, CBOR_MAX_DEPTH, true);
  }

  lemma DeepPairsRead(s: seq<byte>, p: nat)
    requires SameSlice(DeepList(), 0, s, p, |DeepList()|) && |s| <= SIZE_MAX
    ensures p + CBOR_MAX_DEPTH + 74 <= |s| && DecodeMap(s, p + 1, true) == Ok(3, p + 2)
    ensures Pairs(ComponentMap, s, p + 1, p + 2, 3, []) == Ok(DeepPairs(s, p), p + CBOR_MAX_DEPTH + 74)
  {
    hide DecodeHead, SameSlice, Deep, DeepList, DecodeKey, ComponentValue, Pairs, Walked, DecodeMap;
    DeepListHeads(s, p);
    DeepValues(s, p);
    var m, ps := p + 1, DeepPairs(s, p);
    DeepMapHead(s, p);
    NothingWalked(s, p + 2);
    ReadEntry(s, m, [], [p + 2], 3, 3, ps[0], p + 37);
    assert [] + [ps[0]] == [ps[0]] && [p + 2] + [p + 37] == [p + 2, p + 37];
    ReadEntry(s, m, [ps[0]], [p + 2, p + 37], 3, 2, ps[1], p + 72);
    assert [ps[0]] + [ps[1]] == [ps[0], ps[1]] && [p + 2, p + 37] + [p + 72] == [p + 2, p + 37, p + 72];
    ReadEntry(s, m, [ps[0], ps[1]], [p + 2, p + 37, p + 72], 3, 1, ps[2], p + CBOR_MAX_DEPTH + 74);
    assert [ps[0], ps[1]] + [ps[2]] == ps;
    PairsNone(ComponentMap, s, m, p + CBOR_MAX_DEPTH + 74, ps);
  }

  lemma NothingWalked(s: seq<byte>, i: nat)
    ensures Walked(ComponentMap, s, [], [i])
  {
  }

  lemma DeepMapHead(s: seq<byte>, p: nat)
    requires SameSlice(DeepList(), 0, s, p, |DeepList()|)
    ensures DecodeMap(s, p + 1, true) == Ok(3, p + 2) && DecodeMap(s[p + 1..], 0, true) == Ok(3, 1)
  {
    hide DecodeHead, SameSlice, Deep, DeepList;
    DeepListHeads(s, p);
    Suffix(s, p + 1, p + 1, p + 2);
    HeadFraming(s, p + 1, true, s[p + 1..], 0);
  }

  lemma DeepComponent(s: seq<byte>, p: nat)
    requires p + 74 <= |s|
    ensures var c := ComponentOf(DeepPairs(s, p)); IsHash(c.value) && IsHash(c.signer)
  {
    var ps := DeepPairs(s, p);
    assert StrOf(ps, 2) == Some(s[p + 5..p + 37]);
    assert ps[1..] == [ps[1], ps[2]];
    assert StrOf(ps[1..], 5) == Some(s[p + 40..p + 72]);
  }

  /** The deep list is read. */
  lemma DeepListRead(s: seq<byte>, p: nat)
    requires SameSlice(DeepList(), 0, s, p, |DeepList()|) && |s| <= SIZE_MAX
    ensures ComponentsAt(s, p).Ok? && ComponentsAt(s, p).next == p + |DeepList()|
  {
    hide DecodeHead, SameSlice, Deep, DeepList, Pairs, DecodeMap, ComponentOf, IsHash, DeepPairs;
    DeepListHeads(s, p);
    DeepPairsRead(s, p);
    DeepComponent(s, p);
    var c := ComponentAt(s, p + 1);
    assert ComponentsFrom(s, p + 1, 1, []) == ComponentsFrom(s, c.next, 0, [] + [c.value]);
  }

  /** A claims map with the deep list, and an empty nonce before or behind it. */
  function ClaimsWithDeepList(nonceFirst: bool): (b: seq<byte>)
    ensures |b| <= SIZE_MAX
  {
    if nonceFirst then [0xA2, 0x0A, 0x40, 0x19, 0x09, 0x5F] + DeepList()
    else [0xA2, 0x19, 0x09, 0x5F] + DeepList() + [0x0A, 0x40]
  }

  /** Where the list and the nonce stand. */
  lemma DeepClaimsBytes(nonceFirst: bool)
    ensures var s := ClaimsWithDeepList(nonceFirst); var l, n := if nonceFirst then 3 else 1, if nonceFirst then 1 else |s| - 2;
      && DecodeMap(s, 0, true) == Ok(2, 1) && |s| == CBOR_MAX_DEPTH + 80
      && DecodeKey(s, l) == Ok(Unsigned(2399), l + 3) && SameSlice(DeepList(), 0, s, l + 3, |DeepList()|)
      && DecodeKey(s, n) == Ok(Unsigned(10), n + 1) && DecodeBstr(s, n + 1, true) == Ok([], n + 2)
  {
    var s, d := ClaimsWithDeepList(nonceFirst), DeepList();
    hide DeepList, DecodeHead, ToBE;
    if nonceFirst {
      assert s[6..6 + |d|] == d == d[0..|d|];
    } else {
      assert s[4..4 + |d|] == d == d[0..|d|];
    }
    hide ClaimsWithDeepList;
    ByteHead(s, 0, true);
    ByteHead(s, if nonceFirst then 1 else |s| - 2, true);
    ByteHead(s, if nonceFirst then 2 else |s| - 1, true);
    WordHead(s, if nonceFirst then 3 else 1);
  }

  lemma WordHead(s: seq<byte>, i: nat)
    requires i + 3 <= |s| && s[i] == 0x19 && s[i + 1] == 0x09 && s[i + 2] == 0x5F
    ensures DecodeHead(s, i, true) == Ok(Item(UINT, 2399, []), i + 3)
  {
    assert s[i + 1..i + 3] == [0x09, 0x5F];
    assert FromBE([0x09]) == 9 by {
      assert [0x09][..0] == [];
    }
    assert [0x09, 0x5F][..1] == [0x09];
  }

  /** One more claim is read, as long as no deep list of components was read before it. */
  lemma ReadClaim(s: seq<byte>, ps: seq<Pair>, ats: seq<nat>, n: nat, k: nat, p: Pair, e: nat)
    requires Walked(ClaimsMap, s, ps, ats) && |ats| == |ps| + 1 && |s| <= SIZE_MAX && |ps| <= n && k > 0
    requires ats[|ps|] <= |s| && DecodeMap(s, 0, true) == Ok(n, ats[0])
    requires DecodeKey(s, ats[|ps|]).Ok? && DecodeKey(s, ats[|ps|]).value == p.key
    requires forall j :: 0 <= j < |ps| ==> ps[j].key != p.key
    ensures (exists j :: 0 <= j < |ps| && DeepComponents(s, ps, ats, j)) ==>
      Pairs(ClaimsMap, s, 0, ats[|ps|], k, ps).Err?
    ensures !(exists j :: 0 <= j < |ps| && DeepComponents(s, ps, ats, j))
            && ValueAt(ClaimsMap, s, DecodeKey(s, ats[|ps|]).next, p.key, ps) == Ok(p.value, e) ==>
      && Pairs(ClaimsMap, s, 0, ats[|ps|], k, ps) == Pairs(ClaimsMap, s, 0, e, k - 1, ps + [p])
      && Walked(ClaimsMap, s, ps + [p], ats + [e])
  {
    hide Pairs, DecodeKey, ValueAt, DecodeContainer, HasPrior, Walked, DeepComponents;
    ClaimsScanExact(s, ps, ats, n, p.key);
    assert s[0..] == s;
    PairsUnfold(ClaimsMap, s, 0, ats[|ps|], k, ps);
    if ValueAt(ClaimsMap, s, DecodeKey(s, ats[|ps|]).next, p.key, ps) == Ok(p.value, e) {
      WalkedMore(ClaimsMap, s, ps, ats, p, e);
    }
  }

  lemma TwoKeys()
    ensures KnownOf(Unsigned(10)) == Some(Known(Nonce, false))
    ensures KnownOf(Unsigned(2399)) == Some(Known(Components, false))
  {
  }

  /** A claim may be read first, or behind one of the same namespace with another name. */
  lemma MayBeRead(ps: seq<Pair>, k: Known, other: Known)
    requires ps == [] || (|ps| == 1 && KnownOf(ps[0].key) == Some(other))
    requires k.legacy == other.legacy && k.claim != other.claim
    ensures !Mixed(ps, k.legacy) && !Seen(ps, k.claim)
  {
    hide KnownOf;
  }

  lemma NonceValue(s: seq<byte>, j: nat, ps: seq<Pair>)
    requires ps == [] || (|ps| == 1 && ps[0].key == Unsigned(2399))
    ensures var r := DecodeBstr(s, j, true); r.Ok? ==> ValueAt(ClaimsMap, s, j, Unsigned(10), ps) == Ok(Str(r.value), r.next)
  {
    hide DecodeBstr, KnownOf, Mixed, Seen, ComponentsAt, DecodeTstr, DecodeInt, DecodeUint;
    TwoKeys();
    MayBeRead(ps, Known(Nonce, false), Known(Components, false));
  }

  lemma ListValue(s: seq<byte>, j: nat, ps: seq<Pair>)
    requires ps == [] || (|ps| == 1 && ps[0].key == Unsigned(10))
    ensures var r := ComponentsAt(s, j);
      r.Ok? ==> ValueAt(ClaimsMap, s, j, Unsigned(2399), ps) == Ok(Parts(r.value, s[j..r.next]), r.next)
  {
    hide ComponentsAt, KnownOf, Mixed, Seen, ScalarClaim;
    TwoKeys();
    MayBeRead(ps, Known(Components, false), Known(Nonce, false));
  }

  lemma NonceFirst()
    ensures ClaimPairs(ClaimsWithDeepList(true)).Ok?
  {
    hide Pairs, DecodeKey, ValueAt, DecodeMap, Walked, DeepComponents, SameSlice, DeepList, ComponentsAt, DecodeString,
         ClaimsWithDeepList;
    var s := ClaimsWithDeepList(true);
    DeepClaimsBytes(true);
    var nonce := Pair(Unsigned(10), Str([]));
    NonceValue(s, 2, []);
    NoneWalked(s, 1);
    ReadClaim(s, [], [1], 2, 2, nonce, 3);
    assert [] + [nonce] == [nonce] && [1] + [3] == [1, 3];
    DeepListRead(s, 6);
    ListValue(s, 6, [nonce]);
    var r := ComponentsAt(s, 6);
    var list := Pair(Unsigned(2399), Parts(r.value, s[6..r.next]));
    NotComponents(s, [nonce], [1, 3]);
    ReadClaim(s, [nonce], [1, 3], 2, 1, list, r.next);
    PairsNone(ClaimsMap, s, 0, r.next, [nonce] + [list]);
  }

  lemma ListFirst()
    ensures ClaimPairs(ClaimsWithDeepList(false)).Err?
  {
    hide Pairs, DecodeKey, ValueAt, DecodeMap, Walked, DeepComponents, SameSlice, DeepList, ComponentsAt, DecodeString,
         ClaimsWithDeepList;
    var s := ClaimsWithDeepList(false);
    DeepClaimsBytes(false);
    DeepListRead(s, 4);
    DeepListNotSkipped(s, 4);
    ListValue(s, 4, []);
    var r := ComponentsAt(s, 4);
    var list := Pair(Unsigned(2399), Parts(r.value, s[4..r.next]));
    NoneWalked(s, 1);
    ReadClaim(s, [], [1], 2, 2, list, r.next);
    assert [] + [list] == [list] && [1] + [r.next] == [1, r.next];
    IsDeepList(s, list, 1, r.next);
    ReadClaim(s, [list], [1, r.next], 2, 1, Pair(Unsigned(10), Str([])), |s|);
  }

  lemma NoneWalked(s: seq<byte>, i: nat)
    ensures Walked(ClaimsMap, s, [], [i])
  {
  }

  lemma NotComponents(s: seq<byte>, ps: seq<Pair>, ats: seq<nat>)
    requires |ps| == 1 && |ats| == 2 && ps[0].key == Unsigned(10)
    ensures !DeepComponents(s, ps, ats, 0)
  {
  }

  lemma IsDeepList(s: seq<byte>, p: Pair, at: nat, e: nat)
    requires p.key == Unsigned(2399) && DecodeKey(s, at).Ok? && Skip(s, DecodeKey(s, at).next, true).Err?
    ensures DeepComponents(s, [p], [at, e], 0)
  {
    hide DecodeKey, SkipItems;
    assert KnownOf(Unsigned(2399)) == Some(Known(Components, false));
  }

  /** The order of two entries decides: with the nonce first the entries are read, with the deep
      list first the same two entries are refused. */
  lemma OrderDecides()
    ensures ClaimPairs(ClaimsWithDeepList(true)).Ok?
    ensures ClaimPairs(ClaimsWithDeepList(false)).Err?
  {
    hide *;
    NonceFirst();
    ListFirst();
  }
}
