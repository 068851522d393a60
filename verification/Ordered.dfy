/** Ascending enumerations of maps (`BTreeMap::iter`, a RocksDB forward scan), and the
    `OverlayingIterator` that merges an ascending enumeration of changes over one of values. */
module Ordered {

  datatype Option<+T> = None | Some(value: T)

  function Get<K, V>(m: map<K, V>, k: K): Option<V> {
    if k in m then Some(m[k]) else None
  }

  ghost predicate StrictTotalOrder<K(!new)>(lt: (K, K) -> bool) {
    && (forall a :: !lt(a, a))
    && (forall a, b, c :: lt(a, b) && lt(b, c) ==> lt(a, c))
    && (forall a, b :: a == b || lt(a, b) || lt(b, a))
  }

  /** `k` is smaller than every key of `s`. */
  ghost predicate Below<K, V>(lt: (K, K) -> bool, k: K, s: seq<(K, V)>) {
    forall i :: 0 <= i < |s| ==> lt(k, s[i].0)
  }

  /** Strictly ascending by key, so every key occurs once. */
  ghost predicate Ascending<K, V>(lt: (K, K) -> bool, s: seq<(K, V)>) {
    forall i, j :: 0 <= i < j < |s| ==> lt(s[i].0, s[j].0)
  }

  /** The value of the first entry with key `k`. */
  function Lookup<K(==), V>(s: seq<(K, V)>, k: K): Option<V> {
    if s == [] then None
    else if s[0].0 == k then Some(s[0].1)
    else Lookup(s[1..], k)
  }

  lemma {:induction false} LookupBelow<K(!new), V>(lt: (K, K) -> bool, k: K, s: seq<(K, V)>)
    requires StrictTotalOrder(lt) && Below(lt, k, s)
    ensures Lookup(s, k) == None
  {
    if s == [] {
    } else {
      assert lt(k, s[0].0);
      LookupBelow(lt, k, s[1..]);
    }
  }

  lemma {:induction false} LookupAt<K(!new), V>(lt: (K, K) -> bool, s: seq<(K, V)>, i: nat)
    requires StrictTotalOrder(lt) && Ascending(lt, s) && i < |s|
    ensures Lookup(s, s[i].0) == Some(s[i].1)
  {
    if i == 0 {
    } else {
      assert lt(s[0].0, s[i].0);
      LookupAt(lt, s[1..], i - 1);
    }
  }

  /** An entry found by `Lookup` stands somewhere in the sequence. */
  lemma {:induction false} LookupIndex<K, V>(s: seq<(K, V)>, k: K) returns (i: nat)
    requires Lookup(s, k).Some?
    ensures i < |s| && s[i] == (k, Lookup(s, k).value)
  {
    if s[0].0 == k {
      i := 0;
    } else {
      i := LookupIndex(s[1..], k);
      i := i + 1;
    }
  }

  /** `s` enumerates `m`: ascending, and the same key-to-value relation. */
  ghost predicate Lists<K(!new), V>(lt: (K, K) -> bool, s: seq<(K, V)>, m: map<K, V>) {
    Ascending(lt, s) && forall k :: Lookup(s, k) == Get(m, k)
  }

  /** Two ascending sequences with the same key-to-value relation are equal. */
  lemma {:induction false} AscendingUnique<K(!new), V>(lt: (K, K) -> bool, s: seq<(K, V)>, t: seq<(K, V)>)
    requires StrictTotalOrder(lt) && Ascending(lt, s) && Ascending(lt, t)
    requires forall k :: Lookup(s, k) == Lookup(t, k)
    ensures s == t
  {
    assert s != [] ==> Lookup(s, s[0].0) == Lookup(t, s[0].0);
    assert t != [] ==> Lookup(t, t[0].0) == Lookup(s, t[0].0);
    if s != [] && t != [] {
      var i := LookupIndex(t, s[0].0);
      var j := LookupIndex(s, t[0].0);
      assert s[0] == t[0];
      forall k ensures Lookup(s[1..], k) == Lookup(t[1..], k) {
        if k == s[0].0 {
          LookupBelow(lt, k, s[1..]);
          LookupBelow(lt, k, t[1..]);
        } else {
          assert Lookup(s, k) == Lookup(t, k);
        }
      }
      AscendingUnique(lt, s[1..], t[1..]);
      assert s == [s[0]] + s[1..] && t == [t[0]] + t[1..];
    }
  }

  ghost predicate IsLeast<K>(lt: (K, K) -> bool, m: K, s: set<K>) {
    m in s && forall k :: k in s && k != m ==> lt(m, k)
  }

  lemma {:induction false} LeastExists<K(!new)>(lt: (K, K) -> bool, s: set<K>)
    requires StrictTotalOrder(lt) && s != {}
    ensures exists m :: IsLeast(lt, m, s)
    decreases |s|
  {
    var x :| x in s;
    if s == {x} {
      assert IsLeast(lt, x, s);
    } else {
      LeastExists(lt, s - {x});
      var m :| IsLeast(lt, m, s - {x});
      if lt(x, m) {
        forall k | k in s && k != x ensures lt(x, k) {
          assert k in s - {x};
        }
        assert IsLeast(lt, x, s);
      } else {
        assert IsLeast(lt, m, s);
      }
    }
  }

  ghost function Least<K(!new)>(lt: (K, K) -> bool, s: set<K>): (m: K)
    requires StrictTotalOrder(lt) && s != {}
    ensures IsLeast(lt, m, s)
  {
    LeastExists(lt, s);
    var m :| IsLeast(lt, m, s);
    m
  }

  /** What iterating a `BTreeMap` yields: its entries, keys ascending. */
  ghost function Entries<K(!new), V>(lt: (K, K) -> bool, m: map<K, V>): (s: seq<(K, V)>)
    requires StrictTotalOrder(lt)
    decreases |m|
  {
    if m == map[] then []
    else
      var k := Least(lt, m.Keys);
      assert |m - {k}| < |m| by { assert m.Keys == (m - {k}).Keys + {k}; assert |m.Keys| == |(m - {k}).Keys| + 1; }
      [(k, m[k])] + Entries(lt, m - {k})
  }

  lemma {:induction false} EntriesList<K(!new), V>(lt: (K, K) -> bool, m: map<K, V>)
    requires StrictTotalOrder(lt)
    ensures Lists(lt, Entries(lt, m), m)
    decreases |m|
  {
    if m == map[] {
    } else {
      var k := Least(lt, m.Keys);
      var rest := m - {k};
      assert |rest| < |m| by { assert m.Keys == rest.Keys + {k}; assert |m.Keys| == |rest.Keys| + 1; }
      EntriesList(lt, rest);
      var t := Entries(lt, rest);
      forall i | 0 <= i < |t| ensures lt(k, t[i].0) {
        LookupAt(lt, t, i);
        assert Lookup(t, t[i].0) == Get(rest, t[i].0);
      }
      var s := Entries(lt, m);
      assert s == [(k, m[k])] + t && s[1..] == t;
      forall x ensures Lookup(s, x) == Get(m, x) {
        assert Lookup(t, x) == Get(rest, x);
      }
    }
  }

  /** An enumeration of a map is its `Entries`. */
  lemma {:induction false} ListsIsEntries<K(!new), V>(lt: (K, K) -> bool, s: seq<(K, V)>, m: map<K, V>)
    requires StrictTotalOrder(lt) && Lists(lt, s, m)
    ensures s == Entries(lt, m)
  {
    EntriesList(lt, m);
    AscendingUnique(lt, s, Entries(lt, m));
  }

  // ---------------------------------------------------------------------------------------
  // Enumerations of sets
  // ---------------------------------------------------------------------------------------

  function Keys<K, V>(s: seq<(K, V)>): seq<K> {
    if s == [] then [] else [s[0].0] + Keys(s[1..])
  }

  function Units<K>(ks: seq<K>): seq<(K, ())> {
    if ks == [] then [] else [(ks[0], ())] + Units(ks[1..])
  }

  ghost predicate AscendingKeys<K>(lt: (K, K) -> bool, ks: seq<K>) {
    forall i, j :: 0 <= i < j < |ks| ==> lt(ks[i], ks[j])
  }

  /** In an ascending sequence the smaller key stands first. */
  lemma {:induction false} IndexOrder<K(!new)>(lt: (K, K) -> bool, ks: seq<K>, i: nat, j: nat)
    requires StrictTotalOrder(lt) && AscendingKeys(lt, ks)
    requires i < |ks| && j < |ks| && lt(ks[i], ks[j])
    ensures i < j
  {
  }

  /** The members of a set, ascending. */
  ghost function SortedSet<K(!new)>(lt: (K, K) -> bool, s: set<K>): seq<K>
    requires StrictTotalOrder(lt)
  {
    Keys(Entries(lt, map k | k in s :: ()))
  }

  lemma {:induction false} KeysAt<K, V>(s: seq<(K, V)>)
    ensures |Keys(s)| == |s| && forall i :: 0 <= i < |s| ==> Keys(s)[i] == s[i].0
  {
    if s == [] {
    } else {
      KeysAt(s[1..]);
    }
  }

  lemma {:induction false} UnitsAt<K>(ks: seq<K>)
    ensures |Units(ks)| == |ks| && forall i :: 0 <= i < |ks| ==> Units(ks)[i] == (ks[i], ())
    ensures Keys(Units(ks)) == ks
  {
    if ks == [] {
    } else {
      UnitsAt(ks[1..]);
      assert Units(ks)[1..] == Units(ks[1..]);
    }
  }

  lemma {:induction false} UnitsLookup<K>(ks: seq<K>, k: K)
    ensures Lookup(Units(ks), k) == if k in ks then Some(()) else None
  {
    if ks == [] {
    } else {
      UnitsLookup(ks[1..], k);
      assert Units(ks)[1..] == Units(ks[1..]);
    }
  }

  /** `SortedSet` is ascending and has exactly the members of the set. */
  lemma {:induction false} SortedSetMembers<K(!new)>(lt: (K, K) -> bool, s: set<K>)
    requires StrictTotalOrder(lt)
    ensures AscendingKeys(lt, SortedSet(lt, s))
    ensures forall k :: k in SortedSet(lt, s) <==> k in s
  {
    var m := map k | k in s :: ();
    var e := Entries(lt, m);
    EntriesList(lt, m);
    KeysAt(e);
    forall k | k in s ensures k in Keys(e) {
      assert Lookup(e, k) == Get(m, k);
      var i := LookupIndex(e, k);
      assert Keys(e)[i] == k;
    }
    forall i | 0 <= i < |e| ensures Keys(e)[i] in s {
      LookupAt(lt, e, i);
      assert Lookup(e, e[i].0) == Get(m, e[i].0);
    }
  }

  lemma {:induction false} SortedSetInjective<K(!new)>(lt: (K, K) -> bool, s: set<K>, t: set<K>)
    requires StrictTotalOrder(lt) && SortedSet(lt, s) == SortedSet(lt, t)
    ensures s == t
  {
    SortedSetMembers(lt, s);
    SortedSetMembers(lt, t);
    assert forall k :: k in s <==> k in SortedSet(lt, s);
  }

  lemma {:induction false} SortedSetsEqualIff<K(!new)>(lt: (K, K) -> bool, s: set<K>, t: set<K>)
    requires StrictTotalOrder(lt)
    ensures SortedSet(lt, s) == SortedSet(lt, t) <==> s == t
  {
    if SortedSet(lt, s) == SortedSet(lt, t) {
      SortedSetInjective(lt, s, t);
    }
  }

  lemma {:induction false} EntriesOfOne<K(!new), V>(lt: (K, K) -> bool, k: K, v: V)
    requires StrictTotalOrder(lt)
    ensures Entries(lt, map[k := v]) == [(k, v)]
  {
    var s := [(k, v)];
    assert s[1..] == [];
    ListsIsEntries(lt, s, map[k := v]);
  }


  /** An ascending sequence with the members of a set is its `SortedSet`. */
  lemma {:induction false} SortedSetUnique<K(!new)>(lt: (K, K) -> bool, ks: seq<K>, s: set<K>)
    requires StrictTotalOrder(lt)
    requires AscendingKeys(lt, ks)
    requires forall k :: k in ks <==> k in s
    ensures ks == SortedSet(lt, s)
  {
    UnitsAt(ks);
    forall k ensures Lookup(Units(ks), k) == Get(map k | k in s :: (), k) {
      UnitsLookup(ks, k);
    }
    ListsIsEntries(lt, Units(ks), map k | k in s :: ());
  }

  // ---------------------------------------------------------------------------------------
  // Starting an enumeration at a key
  // ---------------------------------------------------------------------------------------

  /** The part of a map at or after an optional start key (`BTreeMap::range(from..)`). */
  function From<K, V>(lt: (K, K) -> bool, m: map<K, V>, from: Option<K>): map<K, V> {
    map k | k in m && (from.Some? ==> !lt(k, from.value)) :: m[k]
  }

  /** `skip_while(|(key, _)| Some(key) < from)`. */
  function SkipBelow<K, V>(lt: (K, K) -> bool, s: seq<(K, V)>, from: Option<K>): seq<(K, V)> {
    if s != [] && from.Some? && lt(s[0].0, from.value) then SkipBelow(lt, s[1..], from) else s
  }

  /** Skipping over the small keys of an enumeration enumerates the restricted map. */
  lemma {:induction false} SkipBelowLists<K(!new), V>(lt: (K, K) -> bool, s: seq<(K, V)>, from: Option<K>)
    requires StrictTotalOrder(lt) && Ascending(lt, s)
    ensures Ascending(lt, SkipBelow(lt, s, from))
    ensures forall k :: Lookup(SkipBelow(lt, s, from), k) ==
                        if from.Some? && lt(k, from.value) then None else Lookup(s, k)
  {
    if s != [] && from.Some? && lt(s[0].0, from.value) {
      SkipBelowLists(lt, s[1..], from);
    } else if from.Some? {
      forall k | lt(k, from.value) ensures Lookup(s, k) == None {
        forall i | 0 <= i < |s| ensures lt(k, s[i].0) {
          if i > 0 { assert lt(s[0].0, s[i].0); }
          assert lt(k, from.value);
          assert from.value == s[0].0 || lt(from.value, s[0].0);
        }
        LookupBelow(lt, k, s);
      }
    }
  }

  lemma {:induction false} SkipBelowEntries<K(!new), V>(lt: (K, K) -> bool, m: map<K, V>, from: Option<K>)
    requires StrictTotalOrder(lt)
    ensures SkipBelow(lt, Entries(lt, m), from) == Entries(lt, From(lt, m, from))
  {
    EntriesList(lt, m);
    SkipBelowLists(lt, Entries(lt, m), from);
    ListsIsEntries(lt, SkipBelow(lt, Entries(lt, m), from), From(lt, m, from));
  }

  // ---------------------------------------------------------------------------------------
  // OverlayingIterator
  // ---------------------------------------------------------------------------------------

  /** The effect of a map of upserts (`Some`) and deletes (`None`) on a map of values. */
  function Overlaid<K, V>(m: map<K, V>, changes: map<K, Option<V>>): map<K, V> {
    map k | k in m.Keys + changes.Keys && (k in changes ==> changes[k].Some?) ::
      if k in changes then changes[k].value else m[k]
  }

  /** Everything an `OverlayingIterator` still has to yield, for what its two sources still hold. */
  function Merged<K(==), V>(lt: (K, K) -> bool, under: seq<(K, V)>, over: seq<(K, Option<V>)>): seq<(K, V)>
    decreases |under| + |over|
  {
    if over == [] then under
    else if under != [] && lt(under[0].0, over[0].0) then [under[0]] + Merged(lt, under[1..], over)
    else
      var under' := if under != [] && under[0].0 == over[0].0 then under[1..] else under;
      if over[0].1.Some? then [(over[0].0, over[0].1.value)] + Merged(lt, under', over[1..])
      else Merged(lt, under', over[1..])
  }

  function LookupMerged<V>(change: Option<Option<V>>, base: Option<V>): Option<V> {
    if change.Some? then change.value else base
  }

  /** Merging keeps lower bounds: nothing smaller than both sources comes out. */
  lemma {:induction false} MergedBelow<K(!new), V>(
    lt: (K, K) -> bool, k: K, under: seq<(K, V)>, over: seq<(K, Option<V>)>)
    requires Below(lt, k, under) && Below(lt, k, over)
    ensures Below(lt, k, Merged(lt, under, over))
    decreases |under| + |over|
  {
    if over == [] {
    } else if under != [] && lt(under[0].0, over[0].0) {
      MergedBelow(lt, k, under[1..], over);
    } else {
      var under' := if under != [] && under[0].0 == over[0].0 then under[1..] else under;
      MergedBelow(lt, k, under', over[1..]);
    }
  }

  /** A merge of ascending sources is ascending, takes every change and every other base value. */
  lemma {:induction false} MergedLookup<K(!new), V>(
    lt: (K, K) -> bool, under: seq<(K, V)>, over: seq<(K, Option<V>)>)
    requires StrictTotalOrder(lt) && Ascending(lt, under) && Ascending(lt, over)
    ensures Ascending(lt, Merged(lt, under, over))
    ensures forall k :: Lookup(Merged(lt, under, over), k) == LookupMerged(Lookup(over, k), Lookup(under, k))
    decreases |under| + |over|
  {
    if over == [] {
    } else if under != [] && lt(under[0].0, over[0].0) {
      var rest := Merged(lt, under[1..], over);
      MergedLookup(lt, under[1..], over);
      var k0 := under[0].0;
      assert Below(lt, k0, over) by {
        forall i | 0 <= i < |over| ensures lt(k0, over[i].0) {
          if i > 0 { assert lt(over[0].0, over[i].0); }
        }
      }
      MergedBelow(lt, k0, under[1..], over);
      LookupBelow(lt, k0, over);
      assert Merged(lt, under, over)[1..] == rest;
    } else {
      var k0 := over[0].0;
      var under' := if under != [] && under[0].0 == k0 then under[1..] else under;
      var rest := Merged(lt, under', over[1..]);
      MergedLookup(lt, under', over[1..]);
      assert Below(lt, k0, under') by {
        forall i | 0 <= i < |under'| ensures lt(k0, under'[i].0) {
          if under != [] && under[0].0 == k0 {
            assert lt(under[0].0, under[i + 1].0);
          } else {
            assert lt(k0, under[0].0);
            if i > 0 { assert lt(under[0].0, under[i].0); }
          }
        }
      }
      MergedBelow(lt, k0, under', over[1..]);
      LookupBelow(lt, k0, rest);
      LookupBelow(lt, k0, over[1..]);
      forall k ensures Lookup(Merged(lt, under, over), k) == LookupMerged(Lookup(over, k), Lookup(under, k)) {
        assert k != k0 ==> Lookup(under', k) == Lookup(under, k);
        if over[0].1.Some? {
          assert Merged(lt, under, over)[1..] == rest;
        }
      }
    }
  }

  /** The iterator over the enumerations of a map and of its changes enumerates the changed map. */
  lemma {:induction false} MergedEntries<K(!new), V>(lt: (K, K) -> bool, m: map<K, V>, changes: map<K, Option<V>>)
    requires StrictTotalOrder(lt)
    ensures Merged(lt, Entries(lt, m), Entries(lt, changes)) == Entries(lt, Overlaid(m, changes))
  {
    EntriesList(lt, m);
    EntriesList(lt, changes);
    MergedLookup(lt, Entries(lt, m), Entries(lt, changes));
    ListsIsEntries(lt, Merged(lt, Entries(lt, m), Entries(lt, changes)), Overlaid(m, changes));
  }

  /** Without deletes, an ascending merge shows that the underlying source was ascending:
      the iterator never repairs a disorder. */
  lemma {:induction false} MergedDisorder<K(!new), V>(
    lt: (K, K) -> bool, under: seq<(K, V)>, over: seq<(K, Option<V>)>)
    requires StrictTotalOrder(lt) && Ascending(lt, over) && Ascending(lt, Merged(lt, under, over))
    requires forall i :: 0 <= i < |over| ==> over[i].1.Some?
    ensures forall i :: 0 < i < |under| ==> lt(under[i - 1].0, under[i].0)
    decreases |under| + |over|
  {
    var merged := Merged(lt, under, over);
    if over == [] {
    } else if under != [] && !lt(over[0].0, under[0].0) {
      var over' := if under[0].0 == over[0].0 then over[1..] else over;
      assert merged[1..] == Merged(lt, under[1..], over');
      MergedDisorder(lt, under[1..], over');
      assert over' != [] ==> lt(under[0].0, over'[0].0);
      if |under| > 1 {
        if over' == [] || lt(under[1].0, over'[0].0) {
          assert merged[0].0 == under[0].0 && merged[1] == under[1];
          assert lt(merged[0].0, merged[1].0);
        } else {
          assert under[1].0 == over'[0].0 || lt(over'[0].0, under[1].0);
        }
      }
      forall i | 1 < i < |under| ensures lt(under[i - 1].0, under[i].0) {
        var tail := under[1..];
        assert lt(tail[i - 2].0, tail[i - 1].0);
      }
    } else {
      assert merged[1..] == Merged(lt, under, over[1..]);
      MergedDisorder(lt, under, over[1..]);
    }
  }

  lemma {:induction false} KeysLookup<K, V>(s: seq<(K, V)>, k: K)
    ensures k in Keys(s) <==> Lookup(s, k).Some?
  {
    if s == [] {
    } else {
      KeysLookup(s[1..], k);
    }
  }

  /** A merge relies on its sources being in order: out of order, a key comes out twice. */
  lemma {:induction false} MergedOutOfOrder<K(!new)>(lt: (K, K) -> bool, x: K, y: K)
    requires StrictTotalOrder(lt) && lt(y, x)
    ensures Merged(lt, [(x, ()), (y, ())], [(y, Some(()))]) == [(y, ()), (x, ()), (y, ())]
  {
    assert !lt(x, y) && x != y;
    var over: seq<(K, Option<()>)> := [(y, Some(()))];
    assert over[1..] == [];
  }

  /** Without deletes the merge has the keys of both, whatever their order. */
  lemma {:induction false} MergedMembers<K, V>(
    lt: (K, K) -> bool, under: seq<(K, V)>, over: seq<(K, Option<V>)>, k: K)
    requires forall i :: 0 <= i < |over| ==> over[i].1.Some?
    ensures k in Keys(Merged(lt, under, over)) <==> k in Keys(under) || k in Keys(over)
    decreases |under| + |over|
  {
    if over == [] {
    } else if under != [] && lt(under[0].0, over[0].0) {
      MergedMembers(lt, under[1..], over, k);
    } else {
      var rest := if under != [] && under[0].0 == over[0].0 then under[1..] else under;
      MergedMembers(lt, rest, over[1..], k);
    }
  }


  lemma {:induction false} AdjacentAscending<K(!new), V>(lt: (K, K) -> bool, s: seq<(K, V)>)
    requires StrictTotalOrder(lt)
    requires forall i :: 0 < i < |s| ==> lt(s[i - 1].0, s[i].0)
    ensures Ascending(lt, s)
  {
    if |s| <= 1 {
    } else {
      AdjacentAscending(lt, s[1..]);
      assert lt(s[0].0, s[1].0);
      forall j | 1 < j < |s| ensures lt(s[0].0, s[j].0) {
        assert lt(s[1..][0].0, s[1..][j - 1].0);
      }
    }
  }

  /** The same for a source that is just a sequence of keys. */
  lemma {:induction false} MergedKeysOrdered<K(!new)>(lt: (K, K) -> bool, root: seq<K>, over: seq<(K, Option<()>)>)
    requires StrictTotalOrder(lt) && Ascending(lt, over)
    requires forall i :: 0 <= i < |over| ==> over[i].1.Some?
    requires AscendingKeys(lt, Keys(Merged(lt, Units(root), over)))
    ensures AscendingKeys(lt, root)
  {
    UnitsAt(root);
    var merged := Merged(lt, Units(root), over);
    KeysAt(merged);
    forall i, j | 0 <= i < j < |merged| ensures lt(merged[i].0, merged[j].0) {
      assert lt(Keys(merged)[i], Keys(merged)[j]);
    }
    MergedDisorder(lt, Units(root), over);
    AdjacentAscending(lt, Units(root));
    forall i, j | 0 <= i < j < |root| ensures lt(root[i], root[j]) {
      assert lt(Units(root)[i].0, Units(root)[j].0);
    }
  }

  /** The iterator itself: two peekable sources, advanced in place. */
  class OverlayingIterator<K(==), V> {
    const lt: (K, K) -> bool
    var underlying: seq<(K, V)>
    var overlaying: seq<(K, Option<V>)>

    constructor (lt: (K, K) -> bool, underlying: seq<(K, V)>, overlaying: seq<(K, Option<V>)>)
      ensures this.lt == lt && this.underlying == underlying && this.overlaying == overlaying
    {
      this.lt := lt;
      this.underlying := underlying;
      this.overlaying := overlaying;
    }

    ghost function Remaining(): seq<(K, V)>
      reads this
    {
      Merged(lt, underlying, overlaying)
    }

    /** Yields the head of what remains and leaves its tail, or `None` at the end. */
    method Next() returns (item: Option<(K, V)>)
      modifies this
      ensures item.None? ==> old(Remaining()) == [] && Remaining() == []
      ensures item.Some? ==> old(Remaining()) == [item.value] + Remaining()
    {
      while overlaying != []
        invariant Remaining() == old(Remaining())
        decreases |overlaying|
      {
        if underlying != [] {
          if lt(underlying[0].0, overlaying[0].0) {
            item := Some(underlying[0]);
            underlying := underlying[1..];
            return;
          } else if underlying[0].0 == overlaying[0].0 {
            underlying := underlying[1..];
          }
        }
        var change := overlaying[0];
        overlaying := overlaying[1..];
        if change.1.Some? {
          item := Some((change.0, change.1.value));
          return;
        }
      }
      if underlying == [] {
        item := None;
      } else {
        item := Some(underlying[0]);
        underlying := underlying[1..];
      }
    }
  }
}
