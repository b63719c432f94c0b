/**
 * The too-often classifier (hit_analysis/classification/artifact/too_often.py):
 * records are grouped by time window (`timestamp // time_division`) and then by exact
 * timestamp; a window with at least `often` distinct timestamps is classified as
 * artifact throughout.
 */
module TooOften {
  import opened Wrappers
  import opened Records
  import opened Grouping

  /**
   * group_for_too_often as written: the loop unpacks each window's list of records
   * (`for k, v in grouped.values()`) into two names. A list that does not hold exactly
   * two records makes the unpacking raise ValueError; a list of two binds `k` and `v`
   * to two records, and regrouping the record `v` (a dict, whose iteration yields its
   * string keys) fails in the key function. Only an empty grouping gets through.
   */
  function GroupForTooOftenAsWritten(ds: seq<Hit>, timeDivision: int, excluded: set<Hit>): Result<Nested<int, int>, string>
    requires timeDivision > 0
  {
    var grouped := GroupByTimestampDivision(ds, timeDivision, excluded);
    if grouped == [] then Ok([])
    else if |grouped[0].1| != 2 then Err("ValueError")
    else Err("AttributeError")
  }

  /** As written, group_for_too_often fails as soon as one record is not excluded. */
  lemma TooOftenAsWrittenFails(ds: seq<Hit>, timeDivision: int, excluded: set<Hit>, d: Hit)
    requires timeDivision > 0 && d in ds && d !in excluded
    ensures GroupForTooOftenAsWritten(ds, timeDivision, excluded).Err?
  {
    GroupByTimestampDivisionSpec(ds, timeDivision, excluded);
    assert d in MemberSet(GroupByTimestampDivision(ds, timeDivision, excluded));
  }

  /** The regrouping the docstring describes: each window's list by exact timestamp, empty results dropped. */
  function ByTimestamp(grouped: Groups<int>): Nested<int, int>
  {
    if grouped == [] then []
    else
      var r := GroupByTimestampDivision(grouped[0].1, 1, {});
      (if |r| > 0 then [(grouped[0].0, r)] else []) + ByTimestamp(grouped[1..])
  }

  /**
   * group_for_too_often as intended (iterating `grouped.items()`): by window of
   * `timeDivision` milliseconds, 60000 by default, then by exact timestamp.
   */
  function GroupForTooOften(ds: seq<Hit>, timeDivision: int := 60000, excluded: set<Hit>): Nested<int, int>
    requires timeDivision > 0
  {
    ByTimestamp(GroupByTimestampDivision(ds, timeDivision, excluded))
  }

  lemma {:induction false} ByTimestampSpec(grouped: Groups<int>)
    requires forall i :: 0 <= i < |grouped| ==> grouped[i].1 != []
    ensures |ByTimestamp(grouped)| == |grouped|
    ensures forall i :: 0 <= i < |grouped| ==>
      ByTimestamp(grouped)[i] == (grouped[i].0, GroupByTimestampDivision(grouped[i].1, 1, {}))
    decreases |grouped|
  {
    if grouped != [] {
      var r := GroupByTimestampDivision(grouped[0].1, 1, {});
      GroupByTimestampDivisionSpec(grouped[0].1, 1, {});
      assert grouped[0].1[0] in MemberSet(r);
      ByTimestampSpec(grouped[1..]);
    }
  }

  /** The distinct timestamps of the records of window `w` that are not excluded. */
  function DistinctTimestamps(ds: seq<Hit>, excluded: set<Hit>, timeDivision: int, w: int): set<int>
    requires timeDivision > 0
  {
    set d | d in ds && d !in excluded && d.timestamp / timeDivision == w :: d.timestamp
  }

  /**
   * Regrouping one window's records by exact timestamp: as many keys as distinct
   * timestamps, each record under its own timestamp, none twice.
   */
  lemma TimestampRegroup(g: seq<Hit>, members: set<Hit>)
    requires g != [] && members == set d | d in g
    ensures var r := GroupByTimestampDivision(g, 1, {});
      && r != [] && MemberSet(r) == members && Disjoint(r)
      && (forall i, d :: 0 <= i < |r| && d in r[i].1 ==> r[i].0 == d.timestamp)
      && |r| == |set d | d in members :: d.timestamp|
  {
    var r := GroupByTimestampDivision(g, 1, {});
    GroupByTimestampDivisionSpec(g, 1, {});
    assert g[0] in MemberSet(r);
    var f: Hit -> int := (d: Hit) => d.timestamp / 1;
    KeyCount(r, f);
    var viaF := set d | d in MemberSet(r) :: f(d);
    assert viaF == set d | d in members :: d.timestamp by {
      forall k | k in viaF ensures k in set d | d in members :: d.timestamp {
        var d :| d in MemberSet(r) && f(d) == k;
        assert d.timestamp == k;
      }
      forall d | d in members ensures d.timestamp in viaF {
        assert f(d) == d.timestamp;
      }
    }
    forall i, d | 0 <= i < |r| && d in r[i].1 ensures r[i].0 == d.timestamp {
      assert r[i].0 == f(d);
    }
  }

  /**
   * group_for_too_often (as intended) files every record that is not excluded
   * exactly once, under its window and then its exact timestamp; each window has as
   * many timestamp keys as its records have distinct timestamps, and none is empty.
   */
  lemma GroupForTooOftenSpec(ds: seq<Hit>, timeDivision: int, excluded: set<Hit>)
    requires timeDivision > 0
    ensures NestedMembers(GroupForTooOften(ds, timeDivision, excluded)) == set d | d in ds && d !in excluded
    ensures OuterDisjoint(GroupForTooOften(ds, timeDivision, excluded))
    ensures forall i :: 0 <= i < |GroupForTooOften(ds, timeDivision, excluded)| ==>
      var (w, r) := GroupForTooOften(ds, timeDivision, excluded)[i];
      && r != []
      && MemberSet(r) == (set d | d in ds && d !in excluded && d.timestamp / timeDivision == w)
      && Disjoint(r)
      && (forall j, d :: 0 <= j < |r| && d in r[j].1 ==> r[j].0 == d.timestamp)
      && |r| == |DistinctTimestamps(ds, excluded, timeDivision, w)|
  {
    var grouped := GroupByTimestampDivision(ds, timeDivision, excluded);
    GroupByTimestampDivisionSpec(ds, timeDivision, excluded);
    ByTimestampSpec(grouped);
    var gs := GroupForTooOften(ds, timeDivision, excluded);
    forall i | 0 <= i < |gs|
      ensures MemberSet(gs[i].1) == set d | d in grouped[i].1
      ensures var w, r := gs[i].0, gs[i].1;
        && r != []
        && MemberSet(r) == (set d | d in ds && d !in excluded && d.timestamp / timeDivision == w)
        && Disjoint(r)
        && (forall j, d :: 0 <= j < |r| && d in r[j].1 ==> r[j].0 == d.timestamp)
        && |r| == |DistinctTimestamps(ds, excluded, timeDivision, w)|
    {
      var members := set d | d in ds && d !in excluded && d.timestamp / timeDivision == gs[i].0;
      assert members == set d | d in grouped[i].1 by {
        forall d | d in grouped[i].1 ensures d in members {
          assert d in MemberSet(grouped);
        }
        forall d | d in members ensures d in grouped[i].1 {
          assert d in MemberSet(grouped);
          var j :| 0 <= j < |grouped| && d in grouped[j].1;
          assert grouped[j].0 == d.timestamp / timeDivision;
        }
      }
      TimestampRegroup(grouped[i].1, members);
      assert (set d | d in members :: d.timestamp) == DistinctTimestamps(ds, excluded, timeDivision, gs[i].0);
    }
    FiledOnce(grouped, gs);
    forall d | d in ds && d !in excluded ensures d in NestedMembers(gs) {
      assert d in MemberSet(grouped);
      var j :| 0 <= j < |grouped| && d in grouped[j].1;
      assert d in MemberSet(gs[j].1);
    }
  }

  /** What one window's classification leaves in a record of it. */
  function TooOftenOutcome(m: Marks, count: int, often: int): Marks
  {
    if count >= often then MarkTooOften(m, count) else m
  }

  /**
   * too_often_classify: the count is the number of timestamp keys of the window; when
   * it reaches `often`, every record of the window gets classified = 'artifact' and
   * artifact_too_often = count; otherwise nothing changes.
   */
  method TooOftenClassify(group: Groups<int>, often: int)
    modifies MemberSet(group)`marks
    ensures forall d :: d in MemberSet(group) ==> d.marks == TooOftenOutcome(old(d.marks), |group|, often)
  {
    var count := |group|;
    if count >= often {
      ghost var done: set<Hit> := {};
      for i := 0 to |group|
        invariant forall k, e :: 0 <= k < i && e in group[k].1 ==> e in done
        invariant forall e :: e in MemberSet(group) ==>
          e.marks == if e in done then MarkTooOften(old(e.marks), count) else old(e.marks)
      {
        var detections := group[i].1;
        for j := 0 to |detections|
          invariant forall k, e :: 0 <= k < i && e in group[k].1 ==> e in done
          invariant forall e :: e in detections[..j] ==> e in done
          invariant forall e :: e in MemberSet(group) ==>
            e.marks == if e in done then MarkTooOften(old(e.marks), count) else old(e.marks)
        {
          var d := detections[j];
          assert 0 <= i < |group| && d in group[i].1;
          assert d in MemberSet(group);
          d.marks := MarkTooOften(d.marks, count);
          done := done + {d};
          assert detections[..j + 1] == detections[..j] + [d];
        }
        assert detections[..|detections|] == detections;
      }
      assert forall e :: e in MemberSet(group) ==> e in done;
    }
  }

  /** too_often_process: every window classified on its own, `often` 4 by default. */
  method TooOftenProcess(groups: Nested<int, int>, often: int := 4)
    requires OuterDisjoint(groups)
    modifies NestedMembers(groups)`marks
    ensures forall i, d :: 0 <= i < |groups| && d in MemberSet(groups[i].1) ==>
      d.marks == TooOftenOutcome(old(d.marks), |groups[i].1|, often)
  {
    for i := 0 to |groups|
      invariant forall k, d :: 0 <= k < i && d in MemberSet(groups[k].1) ==>
        d.marks == TooOftenOutcome(old(d.marks), |groups[k].1|, often)
      invariant forall k, d :: i <= k < |groups| && d in MemberSet(groups[k].1) ==> d.marks == old(d.marks)
    {
      TooOftenClassify(groups[i].1, often);
    }
  }

  /**
   * A window is flagged exactly when it holds at least `often` distinct timestamps,
   * and a flagged record carries that number as its evidence.
   */
  lemma TooOftenFlagsWindows(ds: seq<Hit>, timeDivision: int, excluded: set<Hit>, often: int, i: int, m: Marks)
    requires timeDivision > 0 && 0 <= i < |GroupForTooOften(ds, timeDivision, excluded)|
    ensures var (w, r) := GroupForTooOften(ds, timeDivision, excluded)[i];
      var n := |DistinctTimestamps(ds, excluded, timeDivision, w)|;
      TooOftenOutcome(m, |r|, often) == if n >= often then m.(artifact := true, tooOften := Some(n)) else m
  {
    GroupForTooOftenSpec(ds, timeDivision, excluded);
  }
}
