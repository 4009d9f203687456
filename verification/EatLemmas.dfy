/**
 What an accepted claims map guarantees: its labels are pairwise distinct by value, it keeps
 to one namespace, and the components it stores can all be read again from the stored slice.
 */
module EatLemmas {
  import opened Wire
  import opened Cbor
  import opened CborGrammar
  import opened CborRoundTrip
  import opened HeaderLemmas
  import opened Eat

  // ----- Skipping agrees with typed reading -----

  lemma KeyHead(s: seq<byte>, i: nat)
    requires DecodeKey(s, i).Ok?
    ensures var h := DecodeHead(s, i, true);
      && h.Ok? && h.next == DecodeKey(s, i).next
      && h.value.major != TAG && h.value.major != ARRAY && h.value.major != MAP
  {
    hide DecodeHead;
  }

  lemma KeyFraming(s: seq<byte>, i: nat, t: seq<byte>, j: nat)
    requires DecodeKey(s, i).Ok? && SameSlice(s, i, t, j, DecodeKey(s, i).next - i)
    ensures DecodeKey(t, j) == Ok(DecodeKey(s, i).value, j + (DecodeKey(s, i).next - i))
  {
    hide DecodeHead, SameSlice;
    KeyHead(s, i);
    HeadFraming(s, i, true, t, j);
  }

  lemma SkipKey(s: seq<byte>, i: nat, n: nat, d: nat)
    requires n > 0 && DecodeKey(s, i).Ok?
    ensures SkipItems(s, i, n, d, true) == SkipItems(s, DecodeKey(s, i).next, n - 1, d, true)
  {
    KeyHead(s, i);
    hide DecodeHead, DecodeKey;
  }

  /** A component's value ends where it is skipped to. */
  lemma ComponentValueSkip(s: seq<byte>, j: nat, key: MapKey, ps: seq<Pair>, d: nat)
    requires ComponentValue(s, j, key, ps).Ok? && |s| <= SIZE_MAX
    requires d <= CBOR_MAX_DEPTH && SkipItems(s, j, 1, d, true).Ok?
    ensures SkipItems(s, j, 1, d, true).next == ComponentValue(s, j, key, ps).next
  {
    hide SkipItems, SeenNumber;
    if Skip(s, j, true).Ok? {
      SkipDeeper(s, j, 1, d, CBOR_MAX_DEPTH, true);
    }
    if DecodeHead(s, j, true).Ok? && DecodeHead(s, j, true).value.major in {BSTR, TSTR} {
      SkipOfHead(s, j, d, true);
    }
    hide DecodeHead;
  }

  /** The entries of a component end where they are skipped to. */
  lemma {:induction false} PairsSkip(s: seq<byte>, m: nat, i: nat, k: nat, ps: seq<Pair>, d: nat)
    requires m <= i <= |s| <= SIZE_MAX && d <= CBOR_MAX_DEPTH
    requires Pairs(ComponentMap, s, m, i, k, ps).Ok? && SkipItems(s, i, 2 * k, d, true).Ok?
    ensures SkipItems(s, i, 2 * k, d, true).next == Pairs(ComponentMap, s, m, i, k, ps).next
    decreases k
  {
    hide SkipItems, DecodeKey, HasPrior, ComponentValue;
    if k == 0 {
      SkipNothing(s, i, d, true, i);
    } else {
      PairsStep(ComponentMap, s, m, i, k, ps);
      var key, j := DecodeKey(s, i).value, DecodeKey(s, i).next;
      SkipKey(s, i, 2 * k, d);
      SkipFirst(s, j, 2 * k - 2, d, true);
      ComponentValueSkip(s, j, key, ps, d);
      var v := ComponentValue(s, j, key, ps);
      PairsSkip(s, m, v.next, k - 1, ps + [Pair(key, v.value)], d);
    }
  }

  /** The first step of reading entries. */
  lemma PairsUnfold(shape: Shape, s: seq<byte>, m: nat, i: nat, k: nat, ps: seq<Pair>)
    requires m <= i <= |s| && k > 0
    ensures var key := DecodeKey(s, i); var all := Pairs(shape, s, m, i, k, ps);
      if key.Err? then all == Err(key.error)
      else
        var d := HasPrior(s[m..], i - m, key.value);
        if d.Err? then all == Err(d.error)
        else if d.value then all == Err(EatPsaClaim)
        else
          var v := ValueAt(shape, s, key.next, key.value, ps);
          if v.Err? then all == Err(v.error)
          else all == Pairs(shape, s, m, v.next, k - 1, ps + [Pair(key.value, v.value)])
  {
    hide DecodeKey, HasPrior, ValueAt;
  }

  /** The first of the entries that were read. */
  lemma PairsStep(shape: Shape, s: seq<byte>, m: nat, i: nat, k: nat, ps: seq<Pair>)
    requires m <= i <= |s| && k > 0 && Pairs(shape, s, m, i, k, ps).Ok?
    ensures DecodeKey(s, i).Ok?
    ensures var key, j := DecodeKey(s, i).value, DecodeKey(s, i).next;
      && HasPrior(s[m..], i - m, key).Ok? && !HasPrior(s[m..], i - m, key).value
      && var v := ValueAt(shape, s, j, key, ps);
         && v.Ok? && i < j < v.next <= |s|
         && Pairs(shape, s, m, i, k, ps) == Pairs(shape, s, m, v.next, k - 1, ps + [Pair(key, v.value)])
    ensures shape.ComponentMap? ==>
      ValueAt(shape, s, DecodeKey(s, i).next, DecodeKey(s, i).value, ps)
      == ComponentValue(s, DecodeKey(s, i).next, DecodeKey(s, i).value, ps)
  {
    hide DecodeKey, HasPrior, ComponentValue, ScalarClaim, ComponentsAt, KnownOf, Mixed, Seen, Skip;
  }

  /** A component ends where it is skipped to. */
  lemma ComponentSkip(s: seq<byte>, i: nat, d: nat)
    requires ComponentAt(s, i).Ok? && i <= |s| <= SIZE_MAX && d <= CBOR_MAX_DEPTH && SkipItems(s, i, 1, d, true).Ok?
    ensures SkipItems(s, i, 1, d, true).next == ComponentAt(s, i).next
  {
    hide SkipItems, DecodeHead, Pairs, ComponentOf, IsHash;
    SkipCases(s, i, 1, d, true);
    var n, j := DecodeMap(s, i, true).value, DecodeMap(s, i, true).next;
    SkipNothing(s, j, d, true, j);
    if n == 0 {
      PairsNone(ComponentMap, s, i, j, []);
    } else {
      var kids := SkipItems(s, j, 2 * n, d - 1, true);
      PairsSkip(s, i, j, n, [], d - 1);
      SkipNothing(s, kids.next, d, true, kids.next);
    }
  }

  lemma PairsNone(shape: Shape, s: seq<byte>, m: nat, i: nat, ps: seq<Pair>)
    requires m <= i <= |s|
    ensures Pairs(shape, s, m, i, 0, ps) == Ok(ps, i)
  {
    hide DecodeKey, HasPrior, ValueAt;
  }

  lemma {:induction false} ComponentsSkip(s: seq<byte>, i: nat, n: nat, cs: seq<Component>, d: nat)
    requires i <= |s| <= SIZE_MAX && d <= CBOR_MAX_DEPTH
    requires ComponentsFrom(s, i, n, cs).Ok? && SkipItems(s, i, n, d, true).Ok?
    ensures SkipItems(s, i, n, d, true).next == ComponentsFrom(s, i, n, cs).next
    decreases n
  {
    hide SkipItems, ComponentAt;
    if n == 0 {
      SkipNothing(s, i, d, true, i);
    } else {
      SkipFirst(s, i, n - 1, d, true);
      ComponentSkip(s, i, d);
      var c := ComponentAt(s, i);
      ComponentsSkip(s, c.next, n - 1, cs + [c.value], d);
    }
  }

  /** The array of components ends where it is skipped to. */
  lemma ArraySkip(s: seq<byte>, j: nat, d: nat)
    requires ComponentsAt(s, j).Ok? && |s| <= SIZE_MAX && d <= CBOR_MAX_DEPTH && SkipItems(s, j, 1, d, true).Ok?
    ensures SkipItems(s, j, 1, d, true).next == ComponentsAt(s, j).next
  {
    hide SkipItems, DecodeHead, ComponentsFrom;
    SkipCases(s, j, 1, d, true);
    var n, k := DecodeArray(s, j, true).value, DecodeArray(s, j, true).next;
    var kids := SkipItems(s, k, n, d - 1, true);
    ComponentsSkip(s, k, n, [], d - 1);
    SkipNothing(s, kids.next, d, true, kids.next);
  }

  /** The value of a claim ends where it is skipped to. */
  lemma ScalarSkip(s: seq<byte>, j: nat, k: Known, d: nat)
    requires ScalarClaim(s, j, k).Ok? && |s| <= SIZE_MAX && d <= CBOR_MAX_DEPTH && SkipItems(s, j, 1, d, true).Ok?
    ensures SkipItems(s, j, 1, d, true).next == ScalarClaim(s, j, k).next
  {
    hide SkipItems, ScalarClaim, DecodeHead;
    ScalarHead(s, j, k);
    SkipOfHead(s, j, d, true);
  }

  lemma ScalarHead(s: seq<byte>, j: nat, k: Known)
    requires ScalarClaim(s, j, k).Ok?
    ensures var h := DecodeHead(s, j, true);
      && h.Ok? && h.next == ScalarClaim(s, j, k).next
      && h.value.major != TAG && h.value.major != ARRAY && h.value.major != MAP
  {
    hide DecodeHead, LifecycleValid, TfmProfile, LegacyProfile;
  }

  lemma ValueSkip(shape: Shape, s: seq<byte>, j: nat, key: MapKey, ps: seq<Pair>)
    requires ValueAt(shape, s, j, key, ps).Ok? && |s| <= SIZE_MAX && Skip(s, j, true).Ok?
    ensures Skip(s, j, true).next == ValueAt(shape, s, j, key, ps).next
  {
    hide SkipItems, ComponentValue, ComponentsAt, ScalarClaim, Mixed, Seen, KnownOf;
    if shape.ComponentMap? {
      ComponentValueSkip(s, j, key, ps, CBOR_MAX_DEPTH);
    } else if KnownOf(key).Some? {
      if KnownOf(key).value.claim == Components {
        ArraySkip(s, j, CBOR_MAX_DEPTH);
      } else {
        ScalarSkip(s, j, KnownOf(key).value, CBOR_MAX_DEPTH);
      }
    }
  }

  // ----- Labels are distinct -----

  /** Entries read one after the other, each starting where the one before it ends. */
  ghost predicate Walked(shape: Shape, s: seq<byte>, ps: seq<Pair>, ats: seq<nat>) {
    && |ats| == |ps| + 1
    && forall k :: 0 <= k < |ps| ==> EntryRead(shape, s, ps, ats, k)
  }

  ghost predicate EntryRead(shape: Shape, s: seq<byte>, ps: seq<Pair>, ats: seq<nat>, k: nat)
    requires k < |ps| && |ats| == |ps| + 1
  {
    var key := DecodeKey(s, ats[k]);
    && key.Ok? && key.value == ps[k].key
    && ValueAt(shape, s, key.next, ps[k].key, ps[..k]) == Ok(ps[k].value, ats[k + 1])
  }

  predicate DistinctKeys(ps: seq<Pair>) {
    forall a, b :: 0 <= a < b < |ps| ==> ps[a].key != ps[b].key
  }

  lemma DistinctMore(ps: seq<Pair>, p: Pair)
    requires DistinctKeys(ps) && forall k :: 0 <= k < |ps| ==> ps[k].key != p.key
    ensures DistinctKeys(ps + [p])
  {
  }

  lemma {:induction false} WalkedUp(shape: Shape, s: seq<byte>, ps: seq<Pair>, ats: seq<nat>, a: nat, b: nat)
    requires Walked(shape, s, ps, ats) && a <= b <= |ps|
    ensures ats[a] <= ats[b] && (a < b ==> ats[a] < ats[b])
    decreases b - a
  {
    hide DecodeKey, ValueAt;
    if a < b {
      assert EntryRead(shape, s, ps, ats, a);
      WalkedUp(shape, s, ps, ats, a + 1, b);
    }
  }

  lemma EntryOf(shape: Shape, s: seq<byte>, ps: seq<Pair>, ats: seq<nat>, k: nat)
    requires Walked(shape, s, ps, ats) && k < |ps|
    ensures |ats| == |ps| + 1 && EntryRead(shape, s, ps, ats, k)
  {
    hide EntryRead;
  }

  /** A scan that finds no label has met every entry before its end. */
  lemma {:induction false} PriorSees(shape: Shape, s: seq<byte>, m: nat, ps: seq<Pair>, ats: seq<nat>, a: nat, n: nat,
                                     key: MapKey)
    requires Walked(shape, s, ps, ats) && a <= |ps| < |ats| && |s| <= SIZE_MAX
    requires m <= ats[a] <= ats[|ps|] <= |s|
    requires var r := PriorFrom(s[m..], ats[a] - m, n, ats[|ps|] - m, key); r.Ok? && !r.value
    ensures forall k :: a <= k < |ps| ==> ps[k].key != key
    decreases |ps| - a
  {
    hide DecodeKey, ValueAt, Skip, PriorFrom, Walked;
    if a < |ps| {
      EntryOf(shape, s, ps, ats, a);
      WalkedUp(shape, s, ps, ats, a, |ps|);
      WalkedUp(shape, s, ps, ats, a + 1, |ps|);
      var i, j := ats[a], DecodeKey(s, ats[a]).next;
      SuffixKey(s, m, i);
      PriorStep(s[m..], i - m, n, ats[|ps|] - m, key);
      SuffixSkip(s, m, j);
      ValueSkip(shape, s, j, ps[a].key, ps[..a]);
      PriorSees(shape, s, m, ps, ats, a + 1, n - 1, key);
    }
  }

  lemma PriorStep(s: seq<byte>, i: nat, n: nat, before: nat, key: MapKey)
    requires i < before && PriorFrom(s, i, n, before, key).Ok? && !PriorFrom(s, i, n, before, key).value
    ensures n > 0 && DecodeKey(s, i).Ok? && DecodeKey(s, i).value != key
    ensures var e := Skip(s, DecodeKey(s, i).next, true);
      e.Ok? && PriorFrom(s, i, n, before, key) == PriorFrom(s, e.next, n - 1, before, key)
  {
    hide DecodeKey, Skip;
  }

  lemma Suffix(s: seq<byte>, m: nat, i: nat, e: nat)
    requires m <= i <= e <= |s|
    ensures SameSlice(s, i, s[m..], i - m, e - i) && SameSlice(s[m..], i - m, s, i, e - i)
  {
    SubSlice(s, m, |s|, i - m, e - m);
    assert s[m..] == s[m..|s|];
  }

  lemma SuffixKey(s: seq<byte>, m: nat, i: nat)
    requires m <= i && DecodeKey(s, i).Ok?
    ensures DecodeKey(s[m..], i - m) == Ok(DecodeKey(s, i).value, DecodeKey(s, i).next - m)
  {
    hide DecodeKey, SameSlice;
    Suffix(s, m, i, DecodeKey(s, i).next);
    KeyFraming(s, i, s[m..], i - m);
  }

  lemma SuffixSkip(s: seq<byte>, m: nat, j: nat)
    requires m <= j <= |s| <= SIZE_MAX && Skip(s[m..], j - m, true).Ok?
    ensures Skip(s, j, true) == Ok((), Skip(s[m..], j - m, true).next + m)
  {
    hide SkipItems, SameSlice;
    var e := Skip(s[m..], j - m, true).next;
    Suffix(s, m, j, e + m);
    SkipFraming(s[m..], j - m, 1, CBOR_MAX_DEPTH, true, s, j);
  }

  lemma WalkedMore(shape: Shape, s: seq<byte>, ps: seq<Pair>, ats: seq<nat>, p: Pair, e: nat)
    requires Walked(shape, s, ps, ats) && DecodeKey(s, ats[|ps|]).Ok? && DecodeKey(s, ats[|ps|]).value == p.key
    requires ValueAt(shape, s, DecodeKey(s, ats[|ps|]).next, p.key, ps) == Ok(p.value, e)
    ensures Walked(shape, s, ps + [p], ats + [e])
  {
    hide DecodeKey, ValueAt;
    var qs := ps + [p];
    forall k | 0 <= k < |qs|
      ensures EntryRead(shape, s, qs, ats + [e], k)
    {
      if k < |ps| {
        assert EntryRead(shape, s, ps, ats, k);
        assert qs[..k] == ps[..k];
      } else {
        assert qs[..k] == ps;
      }
    }
  }

  /** However labels are encoded, and whether or not they are known: the labels of an accepted
      map are pairwise distinct. */
  lemma {:induction false} PairsDistinct(shape: Shape, s: seq<byte>, m: nat, i: nat, k: nat, ps: seq<Pair>, ats: seq<nat>,
                                         n: nat) returns (all: seq<nat>)
    requires m <= i <= |s| <= SIZE_MAX && Pairs(shape, s, m, i, k, ps).Ok? && Walked(shape, s, ps, ats) && DistinctKeys(ps)
    requires |ats| == |ps| + 1 && ats[|ps|] == i && m <= ats[0] && DecodeMap(s[m..], 0, true) == Ok(n, ats[0] - m)
    ensures var r := Pairs(shape, s, m, i, k, ps);
      |all| == |r.value| + 1 && Walked(shape, s, r.value, all) && DistinctKeys(r.value) && all[0] == ats[0] && all[|r.value|] == r.next
    decreases k
  {
    hide Pairs, DecodeKey, ValueAt, DecodeMap, Walked, PriorFrom, DecodeContainer, DistinctKeys;
    if k == 0 {
      PairsNone(shape, s, m, i, ps);
      all := ats;
    } else {
      PairsStep(shape, s, m, i, k, ps);
      var key, j := DecodeKey(s, i).value, DecodeKey(s, i).next;
      var v := ValueAt(shape, s, j, key, ps);
      WalkedUp(shape, s, ps, ats, 0, |ps|);
      PriorSees(shape, s, m, ps, ats, 0, n, key);
      DistinctMore(ps, Pair(key, v.value));
      WalkedMore(shape, s, ps, ats, Pair(key, v.value), v.next);
      all := PairsDistinct(shape, s, m, v.next, k - 1, ps + [Pair(key, v.value)], ats + [v.next], n);
    }
  }

  // ----- One namespace -----

  /** The known labels among the entries are of one namespace, and none is read twice. */
  predicate OneNamespace(ps: seq<Pair>) {
    forall a, b :: 0 <= a < b < |ps| && KnownOf(ps[a].key).Some? && KnownOf(ps[b].key).Some? ==>
      && KnownOf(ps[a].key).value.legacy == KnownOf(ps[b].key).value.legacy
      && KnownOf(ps[a].key).value.claim != KnownOf(ps[b].key).value.claim
  }

  /** A known label is only read after labels of its own namespace that name other claims. */
  lemma KnownAfter(s: seq<byte>, j: nat, key: MapKey, ps: seq<Pair>)
    requires ValueAt(ClaimsMap, s, j, key, ps).Ok? && KnownOf(key).Some?
    ensures !Mixed(ps, KnownOf(key).value.legacy) && !Seen(ps, KnownOf(key).value.claim)
  {
    hide Mixed, Seen, KnownOf, ComponentsAt, ScalarClaim;
  }

  lemma WalkedOneNamespace(s: seq<byte>, ps: seq<Pair>, ats: seq<nat>)
    requires Walked(ClaimsMap, s, ps, ats)
    ensures OneNamespace(ps)
  {
    hide KnownOf, ValueAt, Walked, DecodeKey;
    forall a, b | 0 <= a < b < |ps| && KnownOf(ps[a].key).Some? && KnownOf(ps[b].key).Some?
      ensures KnownOf(ps[a].key).value.legacy == KnownOf(ps[b].key).value.legacy
      ensures KnownOf(ps[a].key).value.claim != KnownOf(ps[b].key).value.claim
    {
      EntryOf(ClaimsMap, s, ps, ats, b);
      KnownAfter(s, DecodeKey(s, ats[b]).next, ps[b].key, ps[..b]);
      assert ps[..b][a] == ps[a];
    }
  }

  /** Within one namespace, different labels name different claims: the mask of claims that
      were read adds nothing to the scan for repeated labels. */
  lemma MaskIsRedundant(a: MapKey, b: MapKey)
    requires a != b && KnownOf(a).Some? && KnownOf(b).Some? && KnownOf(a).value.legacy == KnownOf(b).value.legacy
    ensures KnownOf(a).value.claim != KnownOf(b).value.claim
  {
  }

  /** The entries of a claims map, and where they stand. */
  lemma ClaimsWalked(s: seq<byte>) returns (ats: seq<nat>)
    requires ClaimPairs(s).Ok? && |s| <= SIZE_MAX
    ensures var ps := ClaimPairs(s);
      && Walked(ClaimsMap, s, ps.value, ats) && DistinctKeys(ps.value) && ats[|ps.value|] == ps.next
      && DecodeMap(s, 0, true) == Ok(|ps.value|, ats[0])
  {
    hide Pairs, DecodeContainer, DecodeKey, ValueAt;
    var n, j := DecodeMap(s, 0, true).value, DecodeMap(s, 0, true).next;
    assert s[0..] == s;
    ats := PairsDistinct(ClaimsMap, s, 0, j, n, [], [j], n);
  }

  /** What an accepted token guarantees, whatever its encoding: the entries `ps` are all those of
      its map, their labels are pairwise distinct, known labels are of one namespace, every claim
      that its profile requires is there, and either components or, in the legacy profile, the
      statement that there are none. */
  lemma AcceptedClaims(s: seq<byte>) returns (ps: seq<Pair>, ats: seq<nat>)
    requires DecodeClaims(s).Ok? && |s| <= SIZE_MAX
    ensures Walked(ClaimsMap, s, ps, ats) && DecodeMap(s, 0, true) == Ok(|ps|, ats[0]) && ats[|ps|] == |s|
    ensures DistinctKeys(ps) && OneNamespace(ps)
    ensures var t := DecodeClaims(s).value;
      && t == TokenOf(ps, t.legacy)
      && (forall k :: 0 <= k < |ps| && KnownOf(ps[k].key).Some? ==> KnownOf(ps[k].key).value.legacy == t.legacy)
      && (if t.legacy then AllSeen(ps, LEGACY_REQUIRED) && Seen(ps, Components) != Seen(ps, NoMeasurements)
          else AllSeen(ps, CURRENT_REQUIRED) && !Seen(ps, NoMeasurements))
  {
    hide Pairs, DecodeContainer, DecodeKey, ValueAt, TokenOf, FieldsValid, AllSeen, Walked, Number, ClaimOf;
    ps := ClaimPairs(s).value;
    ats := ClaimsWalked(s);
    hide ClaimPairs;
    WalkedOneNamespace(s, ps, ats);
    LegacyOnly();
  }

  /** Only the legacy namespace can state that there are no measurements. */
  lemma LegacyOnly()
    ensures forall key :: KnownOf(key).Some? && KnownOf(key).value.claim == NoMeasurements ==> KnownOf(key).value.legacy
  {
  }

  // ----- Reading again from a slice -----

  lemma {:induction false} PriorBound(s: seq<byte>, i: nat, n: nat, before: nat, key: MapKey)
    requires PriorFrom(s, i, n, before, key).Ok? && !PriorFrom(s, i, n, before, key).value
    ensures i <= before && PriorFrom(s, i, n, before, key) == Ok(false, before)
    decreases n
  {
    hide DecodeKey, Skip;
    if n > 0 && i < before {
      PriorStep(s, i, n, before, key);
      PriorBound(s, Skip(s, DecodeKey(s, i).next, true).next, n - 1, before, key);
    }
  }

  /** A scan that finds no label looks only at the bytes before its end. */
  lemma {:induction false} PriorFraming(s: seq<byte>, i: nat, n: nat, before: nat, key: MapKey, t: seq<byte>, j: nat)
    requires PriorFrom(s, i, n, before, key) == Ok(false, before) && i <= before
    requires |t| <= SIZE_MAX && SameSlice(s, i, t, j, before - i)
    ensures PriorFrom(t, j, n, j + (before - i), key) == Ok(false, j + (before - i))
    decreases n
  {
    hide DecodeKey, SkipItems, SameSlice;
    if i < before {
      PriorStep(s, i, n, before, key);
      var k := DecodeKey(s, i).next;
      var e := Skip(s, k, true).next;
      PriorBound(s, e, n - 1, before, key);
      SameSlicePart(s, i, t, j, before - i, 0, k - i);
      KeyFraming(s, i, t, j);
      SameSlicePart(s, i, t, j, before - i, k - i, e - k);
      SkipFraming(s, k, 1, CBOR_MAX_DEPTH, true, t, j + (k - i));
      SameSlicePart(s, i, t, j, before - i, e - i, before - e);
      PriorFraming(s, e, n - 1, before, key, t, j + (e - i));
    }
  }

  lemma ComponentValueFraming(s: seq<byte>, j: nat, key: MapKey, ps: seq<Pair>, t: seq<byte>, k: nat)
    requires ComponentValue(s, j, key, ps).Ok? && |t| <= SIZE_MAX
    requires SameSlice(s, j, t, k, ComponentValue(s, j, key, ps).next - j)
    ensures ComponentValue(t, k, key, ps)
         == Ok(ComponentValue(s, j, key, ps).value, k + (ComponentValue(s, j, key, ps).next - j))
  {
    hide SkipItems, SeenNumber, DecodeHead, SameSlice;
    var e := ComponentValue(s, j, key, ps).next;
    if Skip(s, j, true).Ok? && Skip(s, j, true).next == e {
      SkipFraming(s, j, 1, CBOR_MAX_DEPTH, true, t, k);
    }
    if DecodeHead(s, j, true).Ok? && DecodeHead(s, j, true).next == e {
      HeadFraming(s, j, true, t, k);
    }
  }

  lemma HasPriorFraming(s: seq<byte>, before: nat, key: MapKey, t: seq<byte>, n: nat, h: nat)
    requires HasPrior(s, before, key).Ok? && !HasPrior(s, before, key).value
    requires DecodeMap(s, 0, true) == Ok(n, h) && DecodeMap(t, 0, true) == Ok(n, h)
    requires |t| <= SIZE_MAX && SameSlice(s, 0, t, 0, before) && h <= before
    ensures HasPrior(t, before, key).Ok? && !HasPrior(t, before, key).value
  {
    hide DecodeContainer, PriorFrom, SameSlice;
    PriorBound(s, h, n, before, key);
    SameSlicePart(s, 0, t, 0, before, h, before - h);
    PriorFraming(s, h, n, before, key, t, h);
  }

  lemma PairsCons(shape: Shape, s: seq<byte>, m: nat, i: nat, k: nat, ps: seq<Pair>, key: MapKey, j: nat, v: Value, e: nat)
    requires m <= i <= |s| && k > 0 && DecodeKey(s, i) == Ok(key, j)
    requires HasPrior(s[m..], i - m, key).Ok? && !HasPrior(s[m..], i - m, key).value
    requires ValueAt(shape, s, j, key, ps) == Ok(v, e)
    ensures m <= e <= |s| && Pairs(shape, s, m, i, k, ps) == Pairs(shape, s, m, e, k - 1, ps + [Pair(key, v)])
  {
    hide DecodeKey, HasPrior, ValueAt;
  }

  lemma ComponentShape(s: seq<byte>, j: nat, key: MapKey, ps: seq<Pair>)
    ensures ValueAt(ComponentMap, s, j, key, ps) == ComponentValue(s, j, key, ps)
  {
    hide ComponentValue;
  }

  lemma SuffixSame(s: seq<byte>, m: nat, t: seq<byte>, m': nat, n: nat)
    requires SameSlice(s, m, t, m', n)
    ensures SameSlice(s[m..], 0, t[m'..], 0, n)
  {
    assert s[m..][0..n] == s[m..m + n] && t[m'..][0..n] == t[m'..m' + n];
  }

  /** The entries of a component are read wherever their bytes stand. */
  lemma {:induction false} PairsFraming(s: seq<byte>, m: nat, i: nat, k: nat, ps: seq<Pair>, t: seq<byte>, m': nat,
                                        n: nat, h: nat)
    requires m <= i <= |s| && Pairs(ComponentMap, s, m, i, k, ps).Ok? && |t| <= SIZE_MAX
    requires SameSlice(s, m, t, m', Pairs(ComponentMap, s, m, i, k, ps).next - m)
    requires DecodeMap(s[m..], 0, true) == Ok(n, h) && DecodeMap(t[m'..], 0, true) == Ok(n, h) && h <= i - m
    ensures Pairs(ComponentMap, t, m', m' + (i - m), k, ps)
         == Ok(Pairs(ComponentMap, s, m, i, k, ps).value, m' + (Pairs(ComponentMap, s, m, i, k, ps).next - m))
    decreases k
  {
    hide Pairs, DecodeKey, DecodeContainer, HasPrior, ComponentValue, ValueAt;
    var end := Pairs(ComponentMap, s, m, i, k, ps).next;
    if k == 0 {
      PairsNone(ComponentMap, s, m, i, ps);
      PairsNone(ComponentMap, t, m', m' + (i - m), ps);
    } else {
      PairsStep(ComponentMap, s, m, i, k, ps);
      var key, j := DecodeKey(s, i).value, DecodeKey(s, i).next;
      var v := ComponentValue(s, j, key, ps);
      EntryFraming(s, m, i, ps, t, m', end, n, h);
      PairsCons(ComponentMap, t, m', m' + (i - m), k, ps, key, m' + (j - m), v.value, m' + (v.next - m));
      PairsFraming(s, m, v.next, k - 1, ps + [Pair(key, v.value)], t, m', n, h);
    }
  }

  lemma EntryFraming(s: seq<byte>, m: nat, i: nat, ps: seq<Pair>, t: seq<byte>, m': nat, end: nat, n: nat, h: nat)
    requires m <= i <= end <= |s| && |t| <= SIZE_MAX && SameSlice(s, m, t, m', end - m)
    requires DecodeMap(s[m..], 0, true) == Ok(n, h) && DecodeMap(t[m'..], 0, true) == Ok(n, h) && h <= i - m
    requires DecodeKey(s, i).Ok?
    requires var key, j := DecodeKey(s, i).value, DecodeKey(s, i).next;
      && HasPrior(s[m..], i - m, key).Ok? && !HasPrior(s[m..], i - m, key).value
      && ValueAt(ComponentMap, s, j, key, ps).Ok? && ValueAt(ComponentMap, s, j, key, ps).next <= end
    ensures var key, j := DecodeKey(s, i).value, DecodeKey(s, i).next;
      var v := ComponentValue(s, j, key, ps);
      && v.Ok? && ValueAt(ComponentMap, s, j, key, ps) == v
      && DecodeKey(t, m' + (i - m)) == Ok(key, m' + (j - m))
      && HasPrior(t[m'..], i - m, key).Ok? && !HasPrior(t[m'..], i - m, key).value
      && ValueAt(ComponentMap, t, m' + (j - m), key, ps) == Ok(v.value, m' + (v.next - m))
  {
    hide DecodeKey, DecodeContainer, HasPrior, ComponentValue, ValueAt, SameSlice;
    var key, j := DecodeKey(s, i).value, DecodeKey(s, i).next;
    var v := ValueAt(ComponentMap, s, j, key, ps);
    ComponentShape(s, j, key, ps);
    ComponentShape(t, m' + (j - m), key, ps);
    SameSlicePart(s, m, t, m', end - m, i - m, j - i);
    KeyFraming(s, i, t, m' + (i - m));
    SameSlicePart(s, m, t, m', end - m, j - m, v.next - j);
    ComponentValueFraming(s, j, key, ps, t, m' + (j - m));
    SameSlicePart(s, m, t, m', end - m, 0, i - m);
    SameSliceBound(s, m, t, m', end - m);
    SuffixSame(s, m, t, m', i - m);
    HasPriorFraming(s[m..], i - m, key, t[m'..], n, h);
  }

  lemma ComponentFraming(s: seq<byte>, i: nat, t: seq<byte>, j: nat)
    requires ComponentAt(s, i).Ok? && |t| <= SIZE_MAX && SameSlice(s, i, t, j, ComponentAt(s, i).next - i)
    ensures ComponentAt(t, j) == Ok(ComponentAt(s, i).value, j + (ComponentAt(s, i).next - i))
  {
    hide Pairs, DecodeContainer, ComponentOf, IsHash, SameSlice;
    var n, k := DecodeMap(s, i, true).value, DecodeMap(s, i, true).next;
    var e := ComponentAt(s, i).next;
    SameSliceBound(s, i, t, j, e - i);
    ContainerFraming(s, i, MAP, true, t, j, e - i);
    SuffixMap(s, i);
    SuffixMap(t, j);
    PairsFraming(s, i, k, n, [], t, j, n, k - i);
  }

  /** A map head, seen from where it starts. */
  lemma SuffixMap(s: seq<byte>, i: nat)
    requires i <= |s| && DecodeMap(s, i, true).Ok?
    ensures DecodeMap(s[i..], 0, true) == Ok(DecodeMap(s, i, true).value, DecodeMap(s, i, true).next - i)
  {
    hide DecodeHead, SameSlice;
    Suffix(s, i, i, DecodeMap(s, i, true).next);
    HeadFraming(s, i, true, s[i..], 0);
  }

  lemma {:induction false} ComponentsFromFraming(s: seq<byte>, i: nat, n: nat, cs: seq<Component>, t: seq<byte>, j: nat)
    requires ComponentsFrom(s, i, n, cs).Ok? && i <= |s| && |t| <= SIZE_MAX
    requires SameSlice(s, i, t, j, ComponentsFrom(s, i, n, cs).next - i)
    ensures ComponentsFrom(t, j, n, cs)
         == Ok(ComponentsFrom(s, i, n, cs).value, j + (ComponentsFrom(s, i, n, cs).next - i))
    decreases n
  {
    hide ComponentAt, SameSlice;
    if n > 0 {
      var c, e := ComponentAt(s, i), ComponentsFrom(s, i, n, cs).next;
      SameSlicePart(s, i, t, j, e - i, 0, c.next - i);
      ComponentFraming(s, i, t, j);
      SameSlicePart(s, i, t, j, e - i, c.next - i, e - c.next);
      ComponentsFromFraming(s, c.next, n - 1, cs + [c.value], t, j + (c.next - i));
    }
  }

  /** The components that were accepted are read again from the bytes that were kept of them. */
  lemma KeptComponents(s: seq<byte>, i: nat)
    requires ComponentsAt(s, i).Ok? && |s| <= SIZE_MAX
    ensures var r := ComponentsAt(s, i); var raw := s[i..r.next];
      && var a := DecodeArray(raw, 0, true);
         && a.Ok? && a.value == |r.value| && ComponentsFrom(raw, a.next, a.value, []) == Ok(r.value, |raw|)
  {
    hide DecodeContainer, ComponentsFrom, SameSlice;
    var r := ComponentsAt(s, i);
    var n, k := DecodeArray(s, i, true).value, DecodeArray(s, i, true).next;
    var raw := s[i..r.next];
    WholeSlice(s, i, r.next);
    ContainerFraming(s, i, ARRAY, true, raw, 0, r.next - i);
    SameSlicePart(s, i, raw, 0, r.next - i, k - i, r.next - k);
    ComponentsFromFraming(s, k, n, [], raw, k - i);
  }

  // ----- Every stored component is reached -----

  /** A claim that was found, and where. */
  lemma {:induction false} FindAt(ps: seq<Pair>, claim: Claim) returns (k: nat)
    requires Seen(ps, claim)
    ensures k < |ps| && KnownOf(ps[k].key).Some? && KnownOf(ps[k].key).value.claim == claim
    ensures FindClaim(ps, claim) == Some(ps[k].value)
  {
    hide KnownOf;
    if KnownOf(ps[0].key).Some? && KnownOf(ps[0].key).value.claim == claim {
      k := 0;
    } else {
      var a :| 0 <= a < |ps| && KnownOf(ps[a].key).Some? && KnownOf(ps[a].key).value.claim == claim;
      assert ps[1..][a - 1] == ps[a];
      k := FindAt(ps[1..], claim);
      k := k + 1;
    }
  }

  lemma {:induction false} NotFound(ps: seq<Pair>, claim: Claim)
    requires !Seen(ps, claim)
    ensures FindClaim(ps, claim) == None
  {
    hide KnownOf;
    if ps != [] {
      assert !(KnownOf(ps[0].key).Some? && KnownOf(ps[0].key).value.claim == claim);
      forall k | 0 <= k < |ps| - 1
        ensures !(KnownOf(ps[1..][k].key).Some? && KnownOf(ps[1..][k].key).value.claim == claim)
      {
        assert ps[1..][k] == ps[k + 1];
      }
      NotFound(ps[1..], claim);
    }
  }

  /** The value of the claims that this theorem is about, as they are read. */
  lemma ComponentsRead(s: seq<byte>, j: nat, key: MapKey, ps: seq<Pair>)
    requires ValueAt(ClaimsMap, s, j, key, ps).Ok? && KnownOf(key).Some?
    ensures var v := ValueAt(ClaimsMap, s, j, key, ps);
      && (KnownOf(key).value.claim == Components ==>
            && ComponentsAt(s, j).Ok? && v.next == ComponentsAt(s, j).next
            && v.value == Parts(ComponentsAt(s, j).value, s[j..v.next]))
      && (KnownOf(key).value.claim == NoMeasurements ==> v.value == Num(1))
  {
    hide Mixed, Seen, KnownOf, ComponentsAt, DecodeHead;
  }

  /** Iterating over the components of an accepted token reaches each of them: none is refused,
      and they are the ones that the parser read, in that order. */
  lemma IterationReachesAll(s: seq<byte>) returns (cs: seq<Component>)
    requires DecodeClaims(s).Ok? && |s| <= SIZE_MAX
    ensures var t := DecodeClaims(s).value;
      && StoredComponents(t) == Ok(cs, if t.components.Some? then |t.components.value| else 0)
      && |cs| == t.count
      && (t.components.Some? <==> !t.noMeasurements)
      && (t.components.Some? ==>
            exists j: nat :: ComponentsAt(s, j).Ok? && ComponentsAt(s, j).value == cs
                             && t.components.value == s[j..ComponentsAt(s, j).next])
  {
    hide DecodeClaims, Walked, KnownOf, ComponentsAt, ComponentsFrom, DecodeContainer, DistinctKeys, OneNamespace, AllSeen,
         DecodeKey, ValueAt;
    var ps, ats := AcceptedClaims(s);
    var t := DecodeClaims(s).value;
    RequiredSeen(ps, t.legacy);
    if Seen(ps, Components) {
      var k := FindAt(ps, Components);
      NotFound(ps, NoMeasurements);
      EntryOf(ClaimsMap, s, ps, ats, k);
      var j := DecodeKey(s, ats[k]).next;
      ComponentsRead(s, j, ps[k].key, ps[..k]);
      KeptComponents(s, j);
      cs := ComponentsAt(s, j).value;
    } else {
      var k := FindAt(ps, NoMeasurements);
      NotFound(ps, Components);
      EntryOf(ClaimsMap, s, ps, ats, k);
      ComponentsRead(s, DecodeKey(s, ats[k]).next, ps[k].key, ps[..k]);
      cs := [];
    }
  }

  lemma RequiredSeen(ps: seq<Pair>, legacy: bool)
    requires if legacy then AllSeen(ps, LEGACY_REQUIRED) && Seen(ps, Components) != Seen(ps, NoMeasurements)
             else AllSeen(ps, CURRENT_REQUIRED) && !Seen(ps, NoMeasurements)
    ensures Seen(ps, Components) != Seen(ps, NoMeasurements)
  {
    hide Seen;
  }
}
