/**
 * The grouping helpers the classifiers call (group_by_lambda, group_by_resolution,
 * group_by_timestamp_division). hit_analysis/commons/grouping.py itself is not
 * part of this model; these definitions follow the call sites and docstrings:
 * a group is an insertion-ordered dict from key to list of records, and the key
 * lambda also receives the list of keys seen so far.
 */
module Grouping {
  import opened Records

  /** An insertion-ordered dict from key to the records filed under it. */
  type Groups<K> = seq<(K, seq<Hit>)>

  function Keys<K>(g: Groups<K>): seq<K>
  {
    seq(|g|, i requires 0 <= i < |g| => g[i].0)
  }

  predicate DistinctKeys<K(==)>(g: Groups<K>)
  {
    forall i, j :: 0 <= i < |g| && 0 <= j < |g| && i != j ==> g[i].0 != g[j].0
  }

  /** Every record filed anywhere in `g`. */
  function MemberSet<K>(g: Groups<K>): set<Hit>
  {
    set i, d | 0 <= i < |g| && d in g[i].1 :: d
  }

  /** No record is filed under two different keys. */
  predicate Disjoint<K>(g: Groups<K>)
  {
    forall i, j, d :: 0 <= i < |g| && 0 <= j < |g| && i != j && d in g[i].1 ==> d !in g[j].1
  }

  /** `ret.setdefault(k, []).append(d)`. */
  function Add<K(==)>(g: Groups<K>, k: K, d: Hit): Groups<K>
  {
    if g == [] then [(k, [d])]
    else if g[0].0 == k then [(k, g[0].1 + [d])] + g[1..]
    else [g[0]] + Add(g[1..], k, d)
  }

  /**
   * group_by_lambda: the records not excluded, filed in input order under
   * `key(record, keys seen so far)`.
   */
  function GroupByLambda<K(==)>(ds: seq<Hit>, key: (Hit, seq<K>) -> K, excluded: set<Hit>): Groups<K>
    decreases |ds|
  {
    if ds == [] then []
    else
      var g := GroupByLambda(ds[..|ds| - 1], key, excluded);
      var d := ds[|ds| - 1];
      if d in excluded then g else Add(g, key(d, Keys(g)), d)
  }

  function ResolutionKey(d: Hit, seen: seq<XY>): XY { Resolution(d) }

  /** group_by_resolution: by `(width, height)`. */
  function GroupByResolution(ds: seq<Hit>, excluded: set<Hit>): Groups<XY>
  {
    GroupByLambda(ds, ResolutionKey, excluded)
  }

  /** The key `timestamp // division`; for a positive divisor Python's floor division is Dafny's `/`. */
  function WindowKey(division: int): (Hit, seq<int>) -> int
    requires division > 0
  {
    (d: Hit, seen: seq<int>) => d.timestamp / division
  }

  /** group_by_timestamp_division: by `timestamp // division`. */
  function GroupByTimestampDivision(ds: seq<Hit>, division: int, excluded: set<Hit>): Groups<int>
    requires division > 0
  {
    GroupByLambda(ds, WindowKey(division), excluded)
  }

  // ---------------------------------------------------------------------------

  lemma {:induction false} AddSpec<K>(g: Groups<K>, k: K, d: Hit)
    requires DistinctKeys(g)
    ensures k in Keys(g) ==> |Add(g, k, d)| == |g|
    ensures k in Keys(g) ==>
      forall i :: 0 <= i < |g| ==> Add(g, k, d)[i] == if g[i].0 == k then (k, g[i].1 + [d]) else g[i]
    ensures k !in Keys(g) ==> Add(g, k, d) == g + [(k, [d])]
    decreases |g|
  {
    if g != [] && g[0].0 != k {
      assert DistinctKeys(g[1..]) by {
        forall i, j | 0 <= i < |g| - 1 && 0 <= j < |g| - 1 && i != j ensures g[1..][i].0 != g[1..][j].0 {
          assert g[1..][i] == g[i + 1] && g[1..][j] == g[j + 1];
        }
      }
      AddSpec(g[1..], k, d);
      assert k in Keys(g) <==> k in Keys(g[1..]) by {
        assert forall i :: 0 <= i < |g| - 1 ==> Keys(g[1..])[i] == Keys(g)[i + 1];
        if k in Keys(g) {
          var i :| 0 <= i < |g| && Keys(g)[i] == k;
          assert Keys(g[1..])[i - 1] == k;
        }
      }
    } else if g != [] {
      assert Keys(g)[0] == k;
    }
  }

  /** Adding under a key already present: one list grows, the keys stay. */
  lemma AddExisting<K>(g: Groups<K>, k: K, d: Hit)
    requires DistinctKeys(g) && k in Keys(g)
    ensures DistinctKeys(Add(g, k, d))
    ensures MemberSet(Add(g, k, d)) == MemberSet(g) + {d}
    ensures Keys(Add(g, k, d)) == Keys(g)
  {
    AddSpec(g, k, d);
    var r := Add(g, k, d);
    assert forall i :: 0 <= i < |g| ==> r[i].0 == g[i].0;
    var i0 :| 0 <= i0 < |g| && Keys(g)[i0] == k;
    assert d in r[i0].1;
    forall e | e in MemberSet(r) ensures e in MemberSet(g) + {d} {
      var i :| 0 <= i < |r| && e in r[i].1;
      if e != d { assert e in g[i].1; }
    }
    forall e | e in MemberSet(g) ensures e in MemberSet(r) {
      var i :| 0 <= i < |g| && e in g[i].1;
      assert e in r[i].1;
    }
  }

  /** Adding under a new key: a group `(k, [d])` is appended. */
  lemma AddFresh<K>(g: Groups<K>, k: K, d: Hit)
    requires DistinctKeys(g) && k !in Keys(g)
    ensures DistinctKeys(Add(g, k, d))
    ensures MemberSet(Add(g, k, d)) == MemberSet(g) + {d}
    ensures Keys(Add(g, k, d)) == Keys(g) + [k]
  {
    AddSpec(g, k, d);
    var r := Add(g, k, d);
    assert r == g + [(k, [d])];
    assert forall i :: 0 <= i < |g| ==> g[i].0 == Keys(g)[i];
    assert d in r[|g|].1;
    forall e | e in MemberSet(r) ensures e in MemberSet(g) + {d} {
      var i :| 0 <= i < |r| && e in r[i].1;
      if i < |g| { assert r[i] == g[i]; }
    }
    forall e | e in MemberSet(g) ensures e in MemberSet(r) {
      var i :| 0 <= i < |g| && e in g[i].1;
      assert r[i] == g[i];
    }
  }

  lemma AddKeys<K>(g: Groups<K>, k: K, d: Hit)
    requires DistinctKeys(g)
    ensures DistinctKeys(Add(g, k, d))
    ensures MemberSet(Add(g, k, d)) == MemberSet(g) + {d}
    ensures Keys(Add(g, k, d)) == if k in Keys(g) then Keys(g) else Keys(g) + [k]
  {
    if k in Keys(g) {
      AddExisting(g, k, d);
    } else {
      AddFresh(g, k, d);
    }
  }

  /**
   * The grouping files every record that is not excluded, and nothing else, under
   * pairwise distinct keys, each with a non-empty list.
   */
  lemma {:induction false} GroupByLambdaSpec<K>(ds: seq<Hit>, key: (Hit, seq<K>) -> K, excluded: set<Hit>)
    ensures DistinctKeys(GroupByLambda(ds, key, excluded))
    ensures MemberSet(GroupByLambda(ds, key, excluded)) == set d | d in ds && d !in excluded
    ensures forall i :: 0 <= i < |GroupByLambda(ds, key, excluded)| ==> GroupByLambda(ds, key, excluded)[i].1 != []
    decreases |ds|
  {
    if ds != [] {
      var init := ds[..|ds| - 1];
      var d := ds[|ds| - 1];
      var g := GroupByLambda(init, key, excluded);
      GroupByLambdaSpec(init, key, excluded);
      assert ds == init + [d];
      if d !in excluded {
        var k := key(d, Keys(g));
        AddKeys(g, k, d);
        AddSpec(g, k, d);
      }
    }
  }

  /**
   * Whatever the grouping key promises about a record and its key holds of every
   * record and the key it is filed under.
   */
  lemma {:induction false} GroupByLambdaKeyed<K>(ds: seq<Hit>, key: (Hit, seq<K>) -> K, excluded: set<Hit>, P: (K, Hit) -> bool)
    requires forall d, seen :: P(key(d, seen), d)
    ensures forall i, d :: 0 <= i < |GroupByLambda(ds, key, excluded)| && d in GroupByLambda(ds, key, excluded)[i].1 ==>
      P(GroupByLambda(ds, key, excluded)[i].0, d)
    decreases |ds|
  {
    if ds != [] {
      var init := ds[..|ds| - 1];
      var d := ds[|ds| - 1];
      var g := GroupByLambda(init, key, excluded);
      GroupByLambdaKeyed(init, key, excluded, P);
      GroupByLambdaSpec(init, key, excluded);
      if d !in excluded {
        var k := key(d, Keys(g));
        AddSpec(g, k, d);
        var r := Add(g, k, d);
        forall i, e | 0 <= i < |r| && e in r[i].1 ensures P(r[i].0, e) {
          if i < |g| && e in g[i].1 {
          } else {
            assert e == d && r[i].0 == k;
          }
        }
      }
    }
  }

  /** On a list without repeated records, no record lands under two keys. */
  lemma {:induction false} GroupByLambdaDisjoint<K>(ds: seq<Hit>, key: (Hit, seq<K>) -> K, excluded: set<Hit>)
    requires NoDuplicates(ds)
    ensures Disjoint(GroupByLambda(ds, key, excluded))
    decreases |ds|
  {
    if ds != [] {
      var init := ds[..|ds| - 1];
      var d := ds[|ds| - 1];
      var g := GroupByLambda(init, key, excluded);
      GroupByLambdaDisjoint(init, key, excluded);
      GroupByLambdaSpec(init, key, excluded);
      if d !in excluded {
        var k := key(d, Keys(g));
        AddSpec(g, k, d);
        var r := Add(g, k, d);
        assert d !in MemberSet(g);
        forall i, j, e | 0 <= i < |r| && 0 <= j < |r| && i != j && e in r[i].1 ensures e !in r[j].1 {
        }
      }
    }
  }

  /** A grouping whose every record sits under the key `f` gives it. */
  predicate KeyedBy<K(==)>(g: Groups<K>, f: Hit -> K)
  {
    forall i, d :: 0 <= i < |g| && d in g[i].1 ==> g[i].0 == f(d)
  }

  /** Grouped by an exact key, no record can sit under two keys, repeated or not. */
  lemma KeyedDisjoint<K>(g: Groups<K>, f: Hit -> K)
    requires KeyedBy(g, f) && DistinctKeys(g)
    ensures Disjoint(g)
  {
    forall i, j, d | 0 <= i < |g| && 0 <= j < |g| && i != j && d in g[i].1 ensures d !in g[j].1 {
      assert g[i].0 == f(d) && g[i].0 != g[j].0;
    }
  }

  function KeySet<K>(g: Groups<K>): set<K>
  {
    set i | 0 <= i < |g| :: g[i].0
  }

  lemma {:induction false} KeySetSize<K>(g: Groups<K>)
    requires DistinctKeys(g)
    ensures |KeySet(g)| == |g|
    decreases |g|
  {
    if g != [] {
      var tail := g[1..];
      assert DistinctKeys(tail) by {
        forall i, j | 0 <= i < |tail| && 0 <= j < |tail| && i != j ensures tail[i].0 != tail[j].0 {
          assert tail[i] == g[i + 1] && tail[j] == g[j + 1];
        }
      }
      KeySetSize(tail);
      assert KeySet(g) == {g[0].0} + KeySet(tail) by {
        forall k | k in KeySet(g) ensures k in {g[0].0} + KeySet(tail) {
          var i :| 0 <= i < |g| && g[i].0 == k;
          if i > 0 { assert tail[i - 1] == g[i]; }
        }
        forall k | k in KeySet(tail) ensures k in KeySet(g) {
          var i :| 0 <= i < |tail| && tail[i].0 == k;
          assert tail[i] == g[i + 1];
        }
      }
      assert g[0].0 !in KeySet(tail) by {
        assert forall i :: 0 <= i < |tail| ==> tail[i] == g[i + 1];
      }
    }
  }

  /** Distinct keys of a keyed grouping: as many entries as there are distinct key values. */
  lemma KeyCount<K>(g: Groups<K>, f: Hit -> K)
    requires KeyedBy(g, f) && DistinctKeys(g)
    requires forall i :: 0 <= i < |g| ==> g[i].1 != []
    ensures |g| == |set d | d in MemberSet(g) :: f(d)|
  {
    var ks := set d | d in MemberSet(g) :: f(d);
    forall k | k in ks ensures k in KeySet(g) {
      var d :| d in MemberSet(g) && f(d) == k;
      var i :| 0 <= i < |g| && d in g[i].1;
    }
    forall k | k in KeySet(g) ensures k in ks {
      var i :| 0 <= i < |g| && g[i].0 == k;
      var d := g[i].1[0];
      assert 0 <= i < |g| && d in g[i].1;
      assert d in MemberSet(g);
    }
    assert ks == KeySet(g);
    KeySetSize(g);
  }

  /** group_by_resolution files each record under its own resolution. */
  lemma GroupByResolutionSpec(ds: seq<Hit>, excluded: set<Hit>)
    ensures DistinctKeys(GroupByResolution(ds, excluded))
    ensures KeyedBy(GroupByResolution(ds, excluded), Resolution)
    ensures Disjoint(GroupByResolution(ds, excluded))
    ensures MemberSet(GroupByResolution(ds, excluded)) == set d | d in ds && d !in excluded
    ensures forall i :: 0 <= i < |GroupByResolution(ds, excluded)| ==> GroupByResolution(ds, excluded)[i].1 != []
  {
    GroupByLambdaSpec(ds, ResolutionKey, excluded);
    GroupByLambdaKeyed(ds, ResolutionKey, excluded, (k: XY, d: Hit) => k == Resolution(d));
    KeyedDisjoint(GroupByResolution(ds, excluded), Resolution);
  }

  /** group_by_timestamp_division files each record under `timestamp // division`. */
  lemma GroupByTimestampDivisionSpec(ds: seq<Hit>, division: int, excluded: set<Hit>)
    requires division > 0
    ensures DistinctKeys(GroupByTimestampDivision(ds, division, excluded))
    ensures KeyedBy(GroupByTimestampDivision(ds, division, excluded), (d: Hit) => d.timestamp / division)
    ensures var g := GroupByTimestampDivision(ds, division, excluded);
      forall i, d :: 0 <= i < |g| && d in g[i].1 ==> g[i].0 == d.timestamp / division
    ensures Disjoint(GroupByTimestampDivision(ds, division, excluded))
    ensures MemberSet(GroupByTimestampDivision(ds, division, excluded)) == set d | d in ds && d !in excluded
    ensures forall i :: 0 <= i < |GroupByTimestampDivision(ds, division, excluded)| ==>
      GroupByTimestampDivision(ds, division, excluded)[i].1 != []
  {
    GroupByLambdaSpec(ds, WindowKey(division), excluded);
    GroupByLambdaKeyed(ds, WindowKey(division), excluded, (k: int, d: Hit) => k == d.timestamp / division);
    KeyedDisjoint(GroupByTimestampDivision(ds, division, excluded), (d: Hit) => d.timestamp / division);
  }

  // ---------------------------------------------------------------------------
  // Groupings of groupings: group_for_hot_pixel and group_for_near_hot_pixel build
  // a dict from resolution to a grouping, group_for_too_often one from window to a
  // grouping.

  type Nested<K, K2> = seq<(K, Groups<K2>)>

  /** Every record filed anywhere in a nested grouping. */
  function NestedMembers<K, K2>(gs: Nested<K, K2>): set<Hit>
  {
    set i, d | 0 <= i < |gs| && d in MemberSet(gs[i].1) :: d
  }

  /** No record is filed under two outer keys. */
  predicate OuterDisjoint<K, K2>(gs: Nested<K, K2>)
  {
    forall i, j, d :: 0 <= i < |gs| && 0 <= j < |gs| && i != j && d in MemberSet(gs[i].1) ==> d !in MemberSet(gs[j].1)
  }

  /**
   * Regrouping every list of a disjoint grouping with nothing excluded keeps the
   * outer entries apart.
   */
  lemma FiledOnce<K, K2>(g: Groups<K>, gs: Nested<K, K2>)
    requires Disjoint(g) && |gs| == |g|
    requires forall i :: 0 <= i < |g| ==> MemberSet(gs[i].1) == set d | d in g[i].1
    ensures OuterDisjoint(gs)
  {
  }

  /** On a list without repeated records, no list of the grouping repeats a record. */
  lemma {:induction false} GroupByLambdaListsNoDuplicates<K>(ds: seq<Hit>, key: (Hit, seq<K>) -> K, excluded: set<Hit>)
    requires NoDuplicates(ds)
    ensures forall i :: 0 <= i < |GroupByLambda(ds, key, excluded)| ==> NoDuplicates(GroupByLambda(ds, key, excluded)[i].1)
    decreases |ds|
  {
    if ds != [] {
      var init := ds[..|ds| - 1];
      var d := ds[|ds| - 1];
      var g := GroupByLambda(init, key, excluded);
      GroupByLambdaListsNoDuplicates(init, key, excluded);
      GroupByLambdaSpec(init, key, excluded);
      if d !in excluded {
        var k := key(d, Keys(g));
        AddSpec(g, k, d);
        assert d !in MemberSet(g);
        var r := Add(g, k, d);
        forall i | 0 <= i < |r| ensures NoDuplicates(r[i].1) {
          if i < |g| && g[i].0 == k {
            assert Keys(g)[i] == k;
            assert d !in g[i].1;
            assert r[i].1 == g[i].1 + [d];
          }
        }
      }
    }
  }
}
