/**
 * The hot-pixel classifier (hit_analysis/classification/artifact/hot_pixel.py):
 * records are grouped by resolution and then by exact position; a resolution group
 * with at least `often` distinct positions is classified as artifact throughout.
 */
module HotPixel {
  import opened Wrappers
  import opened Records
  import opened Grouping

  /** The key lambda `lambda x, y: get_xy_key(x)`. */
  function PositionKey(d: Hit, seen: seq<XY>): XY { Position(d) }

  /** The regrouping loop of group_for_hot_pixel: each resolution's list grouped by position, empty results dropped. */
  function ByPosition(grouped: Groups<XY>): Nested<XY, XY>
  {
    if grouped == [] then []
    else
      var r := GroupByLambda(grouped[0].1, PositionKey, {});
      (if |r| > 0 then [(grouped[0].0, r)] else []) + ByPosition(grouped[1..])
  }

  /** group_for_hot_pixel. */
  function GroupForHotPixel(ds: seq<Hit>, excluded: set<Hit>): Nested<XY, XY>
  {
    ByPosition(GroupByResolution(ds, excluded))
  }

  lemma {:induction false} ByPositionSpec(grouped: Groups<XY>)
    requires forall i :: 0 <= i < |grouped| ==> grouped[i].1 != []
    ensures |ByPosition(grouped)| == |grouped|
    ensures forall i :: 0 <= i < |grouped| ==>
      ByPosition(grouped)[i] == (grouped[i].0, GroupByLambda(grouped[i].1, PositionKey, {}))
    decreases |grouped|
  {
    if grouped != [] {
      var r := GroupByLambda(grouped[0].1, PositionKey, {});
      GroupByLambdaSpec(grouped[0].1, PositionKey, {});
      assert grouped[0].1[0] in MemberSet(r);
      ByPositionSpec(grouped[1..]);
    }
  }

  /** The distinct positions of the records of resolution `res` that are not excluded. */
  function DistinctPositions(ds: seq<Hit>, excluded: set<Hit>, res: XY): set<XY>
  {
    set d | d in ds && d !in excluded && Resolution(d) == res :: Position(d)
  }

  /**
   * Regrouping one resolution's records by exact position: as many keys as distinct
   * positions, each record under its own position, none twice.
   */
  lemma PositionRegroup(g: seq<Hit>, members: set<Hit>)
    requires g != [] && members == set d | d in g
    ensures var r := GroupByLambda(g, PositionKey, {});
      && r != [] && MemberSet(r) == members && KeyedBy(r, Position) && Disjoint(r)
      && |r| == |set d | d in members :: Position(d)|
  {
    var r := GroupByLambda(g, PositionKey, {});
    GroupByLambdaSpec(g, PositionKey, {});
    GroupByLambdaKeyed(g, PositionKey, {}, (k: XY, d: Hit) => k == Position(d));
    KeyedDisjoint(r, Position);
    assert g[0] in MemberSet(r);
    var f: Hit -> XY := Position;
    KeyCount(r, f);
    var viaF := set d | d in MemberSet(r) :: f(d);
    assert viaF == set d | d in members :: Position(d) by {
      forall k | k in viaF ensures k in set d | d in members :: Position(d) {
        var d :| d in MemberSet(r) && f(d) == k;
        assert Position(d) == k;
      }
      forall d | d in members ensures Position(d) in viaF {
        assert f(d) == Position(d);
      }
    }
  }

  /**
   * group_for_hot_pixel files every record that is not excluded exactly once, under
   * its resolution and then its exact position; each resolution entry has as many
   * position keys as its records have distinct positions, and none is empty.
   */
  lemma GroupForHotPixelSpec(ds: seq<Hit>, excluded: set<Hit>)
    ensures NestedMembers(GroupForHotPixel(ds, excluded)) == set d | d in ds && d !in excluded
    ensures OuterDisjoint(GroupForHotPixel(ds, excluded))
    ensures forall i :: 0 <= i < |GroupForHotPixel(ds, excluded)| ==>
      var (res, r) := GroupForHotPixel(ds, excluded)[i];
      && r != []
      && MemberSet(r) == (set d | d in ds && d !in excluded && Resolution(d) == res)
      && KeyedBy(r, Position) && Disjoint(r)
      && |r| == |DistinctPositions(ds, excluded, res)|
  {
    var grouped := GroupByResolution(ds, excluded);
    GroupByResolutionSpec(ds, excluded);
    ByPositionSpec(grouped);
    var gs := GroupForHotPixel(ds, excluded);
    forall i | 0 <= i < |gs|
      ensures MemberSet(gs[i].1) == set d | d in grouped[i].1
      ensures var (res, r) := gs[i];
        && r != []
        && MemberSet(r) == (set d | d in ds && d !in excluded && Resolution(d) == res)
        && KeyedBy(r, Position) && Disjoint(r)
        && |r| == |DistinctPositions(ds, excluded, res)|
    {
      var members := set d | d in ds && d !in excluded && Resolution(d) == gs[i].0;
      assert members == set d | d in grouped[i].1 by {
        forall d | d in grouped[i].1 ensures d in members {
          assert d in MemberSet(grouped);
        }
        forall d | d in members ensures d in grouped[i].1 {
          assert d in MemberSet(grouped);
          var j :| 0 <= j < |grouped| && d in grouped[j].1;
          assert grouped[j].0 == Resolution(d);
        }
      }
      PositionRegroup(grouped[i].1, members);
      assert (set d | d in members :: Position(d)) == DistinctPositions(ds, excluded, gs[i].0);
    }
    FiledOnce(grouped, gs);
    forall d | d in ds && d !in excluded ensures d in NestedMembers(gs) {
      assert d in MemberSet(grouped);
      var j :| 0 <= j < |grouped| && d in grouped[j].1;
      assert d in MemberSet(gs[j].1);
    }
  }

  /** What one resolution group's classification leaves in a record of it. */
  function HotPixelOutcome(m: Marks, count: int, often: int): Marks
  {
    if count >= often then MarkHotPixel(m, count) else m
  }

  /**
   * hot_pixel_classify: the count is the number of position keys of the whole
   * resolution group; when it reaches `often`, every record of every position gets
   * classified = 'artifact' and artifact_hot_pixel = count; otherwise nothing changes.
   */
  method HotPixelClassify(group: Groups<XY>, often: int)
    modifies MemberSet(group)`marks
    ensures forall d :: d in MemberSet(group) ==> d.marks == HotPixelOutcome(old(d.marks), |group|, often)
  {
    var count := |group|;
    if count >= often {
      ghost var done: set<Hit> := {};
      for i := 0 to |group|
        invariant forall k, e :: 0 <= k < i && e in group[k].1 ==> e in done
        invariant forall e :: e in MemberSet(group) ==>
          e.marks == if e in done then MarkHotPixel(old(e.marks), count) else old(e.marks)
      {
        var detections := group[i].1;
        for j := 0 to |detections|
          invariant forall k, e :: 0 <= k < i && e in group[k].1 ==> e in done
          invariant forall e :: e in detections[..j] ==> e in done
          invariant forall e :: e in MemberSet(group) ==>
            e.marks == if e in done then MarkHotPixel(old(e.marks), count) else old(e.marks)
        {
          var d := detections[j];
          assert 0 <= i < |group| && d in group[i].1;
          assert d in MemberSet(group);
          d.marks := MarkHotPixel(d.marks, count);
          done := done + {d};
          assert detections[..j + 1] == detections[..j] + [d];
        }
        assert detections[..|detections|] == detections;
      }
      assert forall e :: e in MemberSet(group) ==> e in done;
    }
  }

  /** hot_pixel_process: every resolution group classified on its own, `often` 3 by default. */
  method HotPixelProcess(groups: Nested<XY, XY>, often: int := 3)
    requires OuterDisjoint(groups)
    modifies NestedMembers(groups)`marks
    ensures forall i, d :: 0 <= i < |groups| && d in MemberSet(groups[i].1) ==>
      d.marks == HotPixelOutcome(old(d.marks), |groups[i].1|, often)
  {
    for i := 0 to |groups|
      invariant forall k, d :: 0 <= k < i && d in MemberSet(groups[k].1) ==>
        d.marks == HotPixelOutcome(old(d.marks), |groups[k].1|, often)
      invariant forall k, d :: i <= k < |groups| && d in MemberSet(groups[k].1) ==> d.marks == old(d.marks)
    {
      HotPixelClassify(groups[i].1, often);
    }
  }

  /**
   * Classifying twice changes nothing more: the outcome of a second run on the same
   * groups equals that of the first.
   */
  lemma HotPixelIdempotent(m: Marks, count: int, often: int)
    ensures HotPixelOutcome(HotPixelOutcome(m, count, often), count, often) == HotPixelOutcome(m, count, often)
  {
  }
}
