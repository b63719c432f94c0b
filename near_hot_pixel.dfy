/**
 * The near-hot-pixel classifier (hit_analysis/classification/artifact/near_hot_pixel.py):
 * within one resolution, each record joins the first earlier cluster key closer than
 * `distance`, or opens a cluster at its own position; a cluster of at least `often`
 * records is classified as artifact.
 */
module NearHotPixel {
  import opened Wrappers
  import opened Records
  import opened Grouping

  /**
   * get_near_xy_key: the first of the keys seen so far that lies within `distance`
   * of the record, otherwise the record's own position.
   */
  function GetNearXYKey(keys: seq<XY>, d: Hit, distance: real): (k: XY)
    ensures k in keys || k == Position(d)
    ensures (exists i :: 0 <= i < |keys| && Near(keys[i], Position(d), distance)) ==>
      exists i :: 0 <= i < |keys| && keys[i] == k && Near(k, Position(d), distance) &&
        forall j :: 0 <= j < i ==> !Near(keys[j], Position(d), distance)
    ensures (forall i :: 0 <= i < |keys| ==> !Near(keys[i], Position(d), distance)) ==> k == Position(d)
  {
    if keys == [] then Position(d)
    else if Near(keys[0], Position(d), distance) then keys[0]
    else
      var k := GetNearXYKey(keys[1..], d, distance);
      assert forall i :: 0 <= i < |keys| - 1 ==> keys[1..][i] == keys[i + 1];
      k
  }

  /** The key lambda `lambda x, y: get_near_xy_key(y, x, distance)`. */
  function NearKey(distance: real): (Hit, seq<XY>) -> XY
  {
    (d: Hit, seen: seq<XY>) => GetNearXYKey(seen, d, distance)
  }

  /** The regrouping loop of group_for_near_hot_pixel: each resolution's list clustered, empty results dropped. */
  function ByNearPosition(grouped: Groups<XY>, distance: real): Nested<XY, XY>
  {
    if grouped == [] then []
    else
      var r := GroupByLambda(grouped[0].1, NearKey(distance), {});
      (if |r| > 0 then [(grouped[0].0, r)] else []) + ByNearPosition(grouped[1..], distance)
  }

  /** group_for_near_hot_pixel. */
  function GroupForNearHotPixel(ds: seq<Hit>, distance: real, excluded: set<Hit>): Nested<XY, XY>
  {
    ByNearPosition(GroupByResolution(ds, excluded), distance)
  }

  lemma {:induction false} ByNearPositionSpec(grouped: Groups<XY>, distance: real)
    requires forall i :: 0 <= i < |grouped| ==> grouped[i].1 != []
    ensures |ByNearPosition(grouped, distance)| == |grouped|
    ensures forall i :: 0 <= i < |grouped| ==>
      ByNearPosition(grouped, distance)[i] == (grouped[i].0, GroupByLambda(grouped[i].1, NearKey(distance), {}))
    decreases |grouped|
  {
    if grouped != [] {
      var r := GroupByLambda(grouped[0].1, NearKey(distance), {});
      GroupByLambdaSpec(grouped[0].1, NearKey(distance), {});
      assert grouped[0].1[0] in MemberSet(r);
      ByNearPositionSpec(grouped[1..], distance);
    }
  }

  /** Every record of a cluster lies within `distance` of the cluster's key, or is the key's own position. */
  predicate Clustered(r: Groups<XY>, distance: real)
  {
    forall i, d :: 0 <= i < |r| && d in r[i].1 ==> r[i].0 == Position(d) || Near(r[i].0, Position(d), distance)
  }

  /**
   * Clustering one resolution's records: distinct cluster keys, every record in
   * exactly one cluster, and each within `distance` of its key.
   */
  lemma NearRegroup(g: seq<Hit>, members: set<Hit>, distance: real)
    requires g != [] && NoDuplicates(g) && members == set d | d in g
    ensures var r := GroupByLambda(g, NearKey(distance), {});
      && r != [] && MemberSet(r) == members && DistinctKeys(r) && Disjoint(r) && Clustered(r, distance)
      && forall i :: 0 <= i < |r| ==> r[i].1 != []
  {
    var r := GroupByLambda(g, NearKey(distance), {});
    GroupByLambdaSpec(g, NearKey(distance), {});
    GroupByLambdaDisjoint(g, NearKey(distance), {});
    GroupByLambdaKeyed(g, NearKey(distance), {},
      (k: XY, d: Hit) => k == Position(d) || Near(k, Position(d), distance));
    assert g[0] in MemberSet(r);
  }

  /**
   * group_for_near_hot_pixel files every record that is not excluded exactly once,
   * under its resolution and then in one cluster within `distance` of the cluster's
   * key; no resolution entry is empty.
   */
  lemma GroupForNearHotPixelSpec(ds: seq<Hit>, distance: real, excluded: set<Hit>)
    requires NoDuplicates(ds)
    ensures NestedMembers(GroupForNearHotPixel(ds, distance, excluded)) == set d | d in ds && d !in excluded
    ensures OuterDisjoint(GroupForNearHotPixel(ds, distance, excluded))
    ensures forall i :: 0 <= i < |GroupForNearHotPixel(ds, distance, excluded)| ==>
      var (res, r) := GroupForNearHotPixel(ds, distance, excluded)[i];
      && r != []
      && MemberSet(r) == (set d | d in ds && d !in excluded && Resolution(d) == res)
      && DistinctKeys(r) && Disjoint(r) && Clustered(r, distance)
  {
    var grouped := GroupByResolution(ds, excluded);
    GroupByResolutionSpec(ds, excluded);
    GroupByLambdaListsNoDuplicates(ds, ResolutionKey, excluded);
    ByNearPositionSpec(grouped, distance);
    var gs := GroupForNearHotPixel(ds, distance, excluded);
    forall i | 0 <= i < |gs|
      ensures MemberSet(gs[i].1) == set d | d in grouped[i].1
      ensures var (res, r) := gs[i];
        && r != []
        && MemberSet(r) == (set d | d in ds && d !in excluded && Resolution(d) == res)
        && DistinctKeys(r) && Disjoint(r) && Clustered(r, distance)
    {
      var members := set d | d in ds && d !in excluded && Resolution(d) == gs[i].0;
      assert members == set d | d in grouped[i].1 by {
        forall d | d in grouped[i].1 ensures d in members {
          assert d in MemberSet(grouped);
        }
        forall d | d in members ensures d in grouped[i].1 {
          assert d in MemberSet(grouped);
          var j :| 0 <= j < |grouped| && d in grouped[j].1;
          assert grouped[j].0 == Resolution(d);
        }
      }
      NearRegroup(grouped[i].1, members, distance);
    }
    FiledOnce(grouped, gs);
    forall d | d in ds && d !in excluded ensures d in NestedMembers(gs) {
      assert d in MemberSet(grouped);
      var j :| 0 <= j < |grouped| && d in grouped[j].1;
      assert d in MemberSet(gs[j].1);
    }
  }

  /** What the classification of a cluster of `count` records leaves in each of them. */
  function NearOutcome(m: Marks, count: int, often: int, key: XY): Marks
  {
    if count >= often then MarkNearHotPixel(m, count, key) else m
  }

  /**
   * near_hot_pixel_classify: a cluster of at least `often` records has each of them
   * set to classified = 'artifact', artifact_near_hot_pixel = the cluster's size and
   * artifact_near_hot_pixel_refxy = `key`; smaller clusters are left alone.
   */
  method NearHotPixelClassify(group: Groups<XY>, often: int, key: XY)
    requires Disjoint(group)
    modifies MemberSet(group)`marks
    ensures forall i, d :: 0 <= i < |group| && d in group[i].1 ==>
      d.marks == NearOutcome(old(d.marks), |group[i].1|, often, key)
  {
    for i := 0 to |group|
      invariant forall k, e :: 0 <= k < i && e in group[k].1 ==>
        e.marks == NearOutcome(old(e.marks), |group[k].1|, often, key)
      invariant forall k, e :: i <= k < |group| && e in group[k].1 ==> e.marks == old(e.marks)
    {
      var detections := group[i].1;
      var count := |detections|;
      if count >= often {
        for j := 0 to |detections|
          invariant forall k, e :: 0 <= k < i && e in group[k].1 ==>
            e.marks == NearOutcome(old(e.marks), |group[k].1|, often, key)
          invariant forall k, e :: i < k < |group| && e in group[k].1 ==> e.marks == old(e.marks)
          invariant forall e :: e in detections ==>
            e.marks == if e in detections[..j] then MarkNearHotPixel(old(e.marks), count, key) else old(e.marks)
        {
          var d := detections[j];
          assert 0 <= i < |group| && d in group[i].1;
          assert d in MemberSet(group);
          d.marks := MarkNearHotPixel(d.marks, count, key);
          assert detections[..j + 1] == detections[..j] + [d];
        }
        assert detections[..|detections|] == detections;
      }
    }
  }

  /**
   * near_hot_pixel_process: every resolution entry classified on its own, `often` 3 by
   * default, and the resolution key passed as the reference position.
   */
  method NearHotPixelProcess(groups: Nested<XY, XY>, often: int := 3)
    requires OuterDisjoint(groups) && forall i :: 0 <= i < |groups| ==> Disjoint(groups[i].1)
    modifies NestedMembers(groups)`marks
    ensures forall i, j, d :: 0 <= i < |groups| && 0 <= j < |groups[i].1| && d in groups[i].1[j].1 ==>
      d.marks == NearOutcome(old(d.marks), |groups[i].1[j].1|, often, groups[i].0)
  {
    for i := 0 to |groups|
      invariant forall k, j, d :: 0 <= k < i && 0 <= j < |groups[k].1| && d in groups[k].1[j].1 ==>
        d.marks == NearOutcome(old(d.marks), |groups[k].1[j].1|, often, groups[k].0)
      invariant forall k, d :: i <= k < |groups| && d in MemberSet(groups[k].1) ==> d.marks == old(d.marks)
    {
      NearHotPixelClassify(groups[i].1, often, groups[i].0);
    }
  }
}
