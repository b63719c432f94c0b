/**
 * The second near-hot-pixel classifier
 * (hit_analysis/classification/artifact/near_hot_pixel2.py): within one resolution,
 * every record gets the number of records of its list whose position lies within
 * `distance` of its own (itself included), and is classified as artifact when that
 * number reaches `often`.
 */
module NearHotPixel2 {
  import opened Records
  import opened Grouping

  /**
   * The first pass's `hot_pixels` dictionary after the records `ds`: the order in
   * which positions were first seen ...
   */
  function TallyOrder(ds: seq<Hit>): seq<XY>
  {
    if ds == [] then []
    else
      var order := TallyOrder(ds[..|ds| - 1]);
      if Position(ds[|ds| - 1]) in order then order else order + [Position(ds[|ds| - 1])]
  }

  /** ... and the counter of each position (`get_and_set(hot_pixels, key, 0)`, then `+= 1`). */
  function TallyCounts(ds: seq<Hit>): map<XY, int>
  {
    if ds == [] then map[]
    else
      var counts := TallyCounts(ds[..|ds| - 1]);
      var key := Position(ds[|ds| - 1]);
      counts[key := (if key in counts then counts[key] else 0) + 1]
  }

  /** How many of `ds` sit at position `k`: the reference meaning of a counter. */
  function Multiplicity(ds: seq<Hit>, k: XY): (n: nat)
    ensures n <= |ds|
  {
    if ds == [] then 0
    else Multiplicity(ds[..|ds| - 1], k) + if Position(ds[|ds| - 1]) == k then 1 else 0
  }

  lemma {:induction false} MultiplicityAbsent(ds: seq<Hit>, k: XY)
    requires forall i :: 0 <= i < |ds| ==> Position(ds[i]) != k
    ensures Multiplicity(ds, k) == 0
  {
    if ds != [] {
      MultiplicityAbsent(ds[..|ds| - 1], k);
    }
  }

  /** How many of `ds` have a position satisfying `keep`. */
  function CountWhere(ds: seq<Hit>, keep: XY -> bool): (n: nat)
    ensures n <= |ds|
  {
    if ds == [] then 0
    else CountWhere(ds[..|ds| - 1], keep) + if keep(Position(ds[|ds| - 1])) then 1 else 0
  }

  /** The counters of the listed positions satisfying `keep`, summed. */
  function SumWhere(order: seq<XY>, counts: map<XY, int>, keep: XY -> bool): int
    requires forall k :: k in order ==> k in counts
  {
    if order == [] then 0
    else
      var k := order[|order| - 1];
      SumWhere(order[..|order| - 1], counts, keep) + if keep(k) then counts[k] else 0
  }

  /** The positions within `distance` of `p`. */
  function NearTo(p: XY, distance: real): XY -> bool
  {
    (k: XY) => Near(p, k, distance)
  }

  /** Every position. */
  function Everywhere(): XY -> bool
  {
    (k: XY) => true
  }

  /** How many of `ds` lie within `distance` of `p`: the neighbourhood the second pass computes. */
  function CountNear(ds: seq<Hit>, p: XY, distance: real): nat
  {
    CountWhere(ds, NearTo(p, distance))
  }

  /** The inner loop of the second pass: the counters of the listed positions near `p`, summed. */
  function NeighbourSum(order: seq<XY>, counts: map<XY, int>, p: XY, distance: real): int
    requires forall k :: k in order ==> k in counts
  {
    SumWhere(order, counts, NearTo(p, distance))
  }

  predicate Unique(order: seq<XY>)
  {
    forall i, j :: 0 <= i < j < |order| ==> order[i] != order[j]
  }

  /**
   * The first pass builds a dictionary whose keys are exactly the records' positions,
   * each listed once in first-seen order, and whose counter for a position is the
   * number of records at it.
   */
  lemma {:induction false} TallySpec(ds: seq<Hit>)
    ensures Unique(TallyOrder(ds))
    ensures forall k :: k in TallyOrder(ds) <==> k in TallyCounts(ds)
    ensures forall k :: k in TallyCounts(ds) <==> exists i :: 0 <= i < |ds| && Position(ds[i]) == k
    ensures forall k :: k in TallyCounts(ds) ==> TallyCounts(ds)[k] == Multiplicity(ds, k) > 0
  {
    if ds != [] {
      var init := ds[..|ds| - 1];
      TallySpec(init);
      var key := Position(ds[|ds| - 1]);
      forall k | k in TallyCounts(ds)
        ensures exists i :: 0 <= i < |ds| && Position(ds[i]) == k
        ensures TallyCounts(ds)[k] == Multiplicity(ds, k) > 0
      {
        if k != key {
          assert k in TallyCounts(init);
          var i :| 0 <= i < |init| && Position(init[i]) == k;
          assert ds[i] == init[i];
        } else if key !in TallyCounts(init) {
          MultiplicityAbsent(init, key);
        }
      }
      forall k | exists i :: 0 <= i < |ds| && Position(ds[i]) == k
        ensures k in TallyCounts(ds)
      {
        var i :| 0 <= i < |ds| && Position(ds[i]) == k;
        if i < |init| {
          assert init[i] == ds[i];
        }
      }
    }
  }

  /** A counter that is not listed does not enter the sum. */
  lemma {:induction false} SumWhereFrame(order: seq<XY>, counts: map<XY, int>, k: XY, c: int, keep: XY -> bool)
    requires forall q :: q in order ==> q in counts
    requires k !in order
    ensures SumWhere(order, counts[k := c], keep) == SumWhere(order, counts, keep)
  {
    if order != [] {
      SumWhereFrame(order[..|order| - 1], counts, k, c, keep);
    }
  }

  /** Incrementing the counter of a position listed once adds one to the sum exactly when it is kept. */
  lemma {:induction false} SumWhereBump(order: seq<XY>, counts: map<XY, int>, k: XY, keep: XY -> bool)
    requires forall q :: q in order ==> q in counts
    requires Unique(order) && k in order
    ensures SumWhere(order, counts[k := counts[k] + 1], keep) == SumWhere(order, counts, keep) + if keep(k) then 1 else 0
  {
    var init := order[..|order| - 1];
    var last := order[|order| - 1];
    if last == k {
      assert k !in init;
      SumWhereFrame(init, counts, k, counts[k] + 1, keep);
    } else {
      assert k in init;
      SumWhereBump(init, counts, k, keep);
    }
  }

  /**
   * Summing the first pass's counters over the positions satisfying `keep` counts
   * the records whose position satisfies it.
   */
  lemma {:induction false} TallySums(ds: seq<Hit>, keep: XY -> bool)
    ensures (forall k :: k in TallyOrder(ds) ==> k in TallyCounts(ds))
      && SumWhere(TallyOrder(ds), TallyCounts(ds), keep) == CountWhere(ds, keep)
  {
    TallySpec(ds);
    if ds != [] {
      var init := ds[..|ds| - 1];
      TallySpec(init);
      TallySums(init, keep);
      var order, counts := TallyOrder(init), TallyCounts(init);
      var key := Position(ds[|ds| - 1]);
      if key in order {
        SumWhereBump(order, counts, key, keep);
      } else {
        SumWhereFrame(order, counts, key, 1, keep);
        assert (order + [key])[..|order|] == order;
      }
    }
  }

  /** The second pass's sum over the first pass's dictionary is the number of records within `distance` of `p`. */
  lemma NeighbourhoodIsCountNear(ds: seq<Hit>, p: XY, distance: real)
    ensures (forall k :: k in TallyOrder(ds) ==> k in TallyCounts(ds))
      && NeighbourSum(TallyOrder(ds), TallyCounts(ds), p, distance) == CountNear(ds, p, distance)
  {
    TallySums(ds, NearTo(p, distance));
  }

  lemma {:induction false} CountWhereEverywhere(ds: seq<Hit>)
    ensures CountWhere(ds, Everywhere()) == |ds|
  {
    if ds != [] {
      CountWhereEverywhere(ds[..|ds| - 1]);
    }
  }

  /** The first pass's counters add up to the number of records. */
  lemma TallyTotal(ds: seq<Hit>)
    ensures (forall k :: k in TallyOrder(ds) ==> k in TallyCounts(ds))
      && SumWhere(TallyOrder(ds), TallyCounts(ds), Everywhere()) == |ds|
  {
    TallySums(ds, Everywhere());
    CountWhereEverywhere(ds);
  }

  lemma {:induction false} CountWhereConcat(a: seq<Hit>, b: seq<Hit>, keep: XY -> bool)
    ensures CountWhere(a + b, keep) == CountWhere(a, keep) + CountWhere(b, keep)
    decreases |b|
  {
    if b == [] {
      assert a + b == a;
    } else {
      assert (a + b)[..|a + b| - 1] == a + b[..|b| - 1];
      CountWhereConcat(a, b[..|b| - 1], keep);
    }
  }

  /**
   * The count does not depend on the order of the records: any rearrangement of the
   * list gives every position the same neighbourhood.
   */
  lemma {:induction false} CountWherePermutation(ds: seq<Hit>, ds': seq<Hit>, keep: XY -> bool)
    requires multiset(ds) == multiset(ds')
    ensures CountWhere(ds, keep) == CountWhere(ds', keep)
    decreases |ds|
  {
    if ds == [] {
      assert |ds'| == |multiset(ds')| == 0;
    } else {
      var e := ds[|ds| - 1];
      var init := ds[..|ds| - 1];
      assert ds == init + [e];
      assert e in multiset(ds');
      var j :| 0 <= j < |ds'| && ds'[j] == e;
      var a, b := ds'[..j], ds'[j + 1..];
      assert ds' == a + [e] + b;
      assert multiset(init) == multiset(a + b) by {
        assert multiset(ds) == multiset(init) + multiset{e};
        assert multiset(ds') == multiset(a) + multiset{e} + multiset(b);
        assert multiset(a + b) == multiset(a) + multiset(b);
        assert multiset(init) == multiset(ds) - multiset{e};
        assert multiset(a + b) == multiset(ds') - multiset{e};
      }
      CountWherePermutation(init, a + b, keep);
      CountWhereConcat(a, b, keep);
      CountWhereConcat(a + [e], b, keep);
      CountWhereConcat(a, [e], keep);
      assert CountWhere([e], keep) == CountWhere([], keep) + if keep(Position(e)) then 1 else 0 by {
        assert [e][..0] == [];
      }
    }
  }

  /** With a positive radius every record of the list counts itself. */
  lemma {:induction false} CountNearSelf(ds: seq<Hit>, d: Hit, distance: real)
    requires d in ds && distance > 0.0
    ensures CountNear(ds, Position(d), distance) >= 1
  {
    if ds[|ds| - 1] != d {
      assert d in ds[..|ds| - 1];
      CountNearSelf(ds[..|ds| - 1], d, distance);
    }
  }

  /**
   * The neighbourhoods, and so everything near_hot_pixel_classify2 writes, do not
   * depend on the order of the records: the counters are complete before the second
   * pass reads them.
   */
  lemma CountNearOrderFree(ds: seq<Hit>, ds': seq<Hit>, p: XY, distance: real)
    requires multiset(ds) == multiset(ds')
    ensures CountNear(ds, p, distance) == CountNear(ds', p, distance)
  {
    CountWherePermutation(ds, ds', NearTo(p, distance));
  }

  /** What near_hot_pixel_classify2 leaves in a record whose neighbourhood is `n`. */
  function Near2Outcome(m: Marks, n: int, often: int): Marks
  {
    MarkNearHotPixel2(m, n, n >= often)
  }

  /** The first pass of near_hot_pixel_classify2: the dictionary of positions, as its key order and its counters. */
  method Tally(ds: seq<Hit>) returns (order: seq<XY>, counts: map<XY, int>)
    ensures order == TallyOrder(ds) && counts == TallyCounts(ds)
  {
    order, counts := [], map[];
    for i := 0 to |ds|
      invariant order == TallyOrder(ds[..i]) && counts == TallyCounts(ds[..i])
    {
      var key := Position(ds[i]);
      assert ds[..i + 1][..i] == ds[..i];
      if key !in order {
        order := order + [key];
      }
      counts := counts[key := (if key in counts then counts[key] else 0) + 1];
    }
    assert ds[..|ds|] == ds;
  }

  /** The inner loop of the second pass: the counters of the positions within `distance` of `p`, summed. */
  method Neighbourhood(order: seq<XY>, counts: map<XY, int>, p: XY, distance: real) returns (n: int)
    requires forall k :: k in order ==> k in counts
    ensures n == NeighbourSum(order, counts, p, distance)
  {
    n := 0;
    for j := 0 to |order|
      invariant n == NeighbourSum(order[..j], counts, p, distance)
    {
      assert order[..j + 1][..j] == order[..j];
      if Near(p, order[j], distance) {
        n := n + counts[order[j]];
      }
    }
    assert order[..|order|] == order;
  }

  /**
   * near_hot_pixel_classify2: every record of `ds` gets artifact_near_hot_pixel2 = the
   * number of records of `ds` within `distance` of it, and classified = 'artifact'
   * when that number is at least `often`.
   */
  method NearHotPixelClassify2(ds: seq<Hit>, often: int, distance: real)
    modifies Objects(ds)`marks
    ensures forall d :: d in ds ==>
      d.marks == Near2Outcome(old(d.marks), CountNear(ds, Position(d), distance), often)
  {
    var order, counts := Tally(ds);
    TallySpec(ds);
    for i := 0 to |ds|
      invariant forall e :: e in ds ==>
        (e.marks == if e in ds[..i] then Near2Outcome(old(e.marks), CountNear(ds, Position(e), distance), often)
          else old(e.marks))
    {
      var d := ds[i];
      var neighbourhood := Neighbourhood(order, counts, Position(d), distance);
      NeighbourhoodIsCountNear(ds, Position(d), distance);
      d.marks := MarkNearHotPixel2(d.marks, neighbourhood, neighbourhood >= often);
      assert ds[..i + 1] == ds[..i] + [d];
    }
    assert ds[..|ds|] == ds;
  }

  /** group_for_near_hot_pixel2: the records that are not excluded, by resolution. */
  function GroupForNearHotPixel2(ds: seq<Hit>, excluded: set<Hit>): Groups<XY>
  {
    GroupByResolution(ds, excluded)
  }

  /**
   * group_for_near_hot_pixel2 files every record that is not excluded exactly once,
   * under its own resolution, in lists that are never empty.
   */
  lemma GroupForNearHotPixel2Spec(ds: seq<Hit>, excluded: set<Hit>)
    ensures var g := GroupForNearHotPixel2(ds, excluded);
      && DistinctKeys(g) && Disjoint(g) && KeyedBy(g, Resolution)
      && MemberSet(g) == (set d | d in ds && d !in excluded)
      && forall i :: 0 <= i < |g| ==> g[i].1 != []
  {
    GroupByResolutionSpec(ds, excluded);
  }

  /**
   * near_hot_pixel_process2: every resolution list classified on its own, `often` 3
   * and `distance` 5 by default; a record's neighbourhood is counted in its own list.
   */
  method NearHotPixelProcess2(groups: Groups<XY>, often: int := 3, distance: real := 5.0)
    requires Disjoint(groups)
    modifies MemberSet(groups)`marks
    ensures forall i, d :: 0 <= i < |groups| && d in groups[i].1 ==>
      d.marks == Near2Outcome(old(d.marks), CountNear(groups[i].1, Position(d), distance), often)
  {
    for i := 0 to |groups|
      invariant forall k, d :: 0 <= k < i && d in groups[k].1 ==>
        d.marks == Near2Outcome(old(d.marks), CountNear(groups[k].1, Position(d), distance), often)
      invariant forall k, d :: i <= k < |groups| && d in groups[k].1 ==> d.marks == old(d.marks)
    {
      assert Objects(groups[i].1) <= MemberSet(groups);
      NearHotPixelClassify2(groups[i].1, often, distance);
    }
  }
}
