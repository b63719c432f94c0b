/**
 * The import command's database side (database/management/commands/import.py):
 * sync_db sorts incoming JSON objects into rows to insert, stored rows to update and
 * rows left as they are; insert_detections turns analysed hit records into
 * Detection rows.
 */
module ImportCommand {
  import opened Wrappers
  import opened Records
  import opened HotPixel
  import opened DatabaseModels

  /** A JSON object or a model instance's attributes, by name. */
  type Row = map<string, Value>

  /** `o.get(f)`: the value under `f`, None when the key is absent. */
  function Get(row: Row, f: string): Value
  {
    if f in row then row[f] else Null
  }

  /** A model instance loaded from, or to be written to, the table. */
  class Entity {
    var attrs: Row

    constructor (attrs: Row)
      ensures this.attrs == attrs
    {
      this.attrs := attrs;
    }
  }

  /** A new instance's attributes: `setattr(e, f, o.get(f))` for every field. */
  function Copy(o: Row, fields: set<string>): (r: Row)
    ensures r.Keys == fields
    ensures forall f :: f in fields ==> r[f] == Get(o, f)
  {
    map f | f in fields :: Get(o, f)
  }

  /** Some field of the stored instance differs from the object's value for it. */
  predicate Differs(o: Row, e: Row, fields: set<string>)
    requires fields <= e.Keys
  {
    exists f :: f in fields && e[f] != Get(o, f)
  }

  /** The stored instance after `setattr(e, f, v)` for every field whose value differs. */
  function Overwrite(e: Row, o: Row, fields: set<string>): Row
  {
    map f | f in e.Keys :: if f in fields then Get(o, f) else e[f]
  }

  /**
   * Overwriting keeps the instance's attribute names, takes the object's value for
   * each field, keeps every other attribute, and changes the instance exactly when
   * some field differed; a second overwrite with the same object finds nothing to change.
   */
  lemma OverwriteSpec(e: Row, o: Row, fields: set<string>)
    requires fields <= e.Keys
    ensures Overwrite(e, o, fields).Keys == e.Keys
    ensures forall f :: f in fields ==> Overwrite(e, o, fields)[f] == Get(o, f)
    ensures forall f :: f in e && f !in fields ==> Overwrite(e, o, fields)[f] == e[f]
    ensures Overwrite(e, o, fields) == e <==> !Differs(o, e, fields)
    ensures !Differs(o, Overwrite(e, o, fields), fields)
  {
    var e' := Overwrite(e, o, fields);
    if !Differs(o, e, fields) {
      assert forall f :: f in e ==> e'[f] == e[f];
    }
    if e' == e {
      forall f | f in fields ensures e[f] == Get(o, f) {
        assert e'[f] == Get(o, f);
      }
    }
  }

  /** The attributes of a list of instances. */
  function Rows(es: seq<Entity>): (rs: seq<Row>)
    reads set e | e in es
    ensures |rs| == |es| && forall i :: 0 <= i < |es| ==> rs[i] == es[i].attrs
  {
    if es == [] then [] else Rows(es[..|es| - 1]) + [es[|es| - 1].attrs]
  }

  /** `in_db`: the stored rows by id, a later row replacing an earlier one with the same id. */
  function Index(rows: seq<Row>): map<Value, Row>
  {
    if rows == [] then map[]
    else
      var last := rows[|rows| - 1];
      Index(rows[..|rows| - 1])[Get(last, "id") := last]
  }

  /** An id is in the index exactly when some stored row has it. */
  lemma {:induction false} IndexKeys(rows: seq<Row>)
    ensures forall k :: k in Index(rows) <==> exists i :: 0 <= i < |rows| && Get(rows[i], "id") == k
  {
    if rows != [] {
      var init, last := rows[..|rows| - 1], rows[|rows| - 1];
      IndexKeys(init);
      assert Index(rows) == Index(init)[Get(last, "id") := last];
      forall k | k in Index(rows) ensures exists i :: 0 <= i < |rows| && Get(rows[i], "id") == k {
        if k != Get(last, "id") {
          var i :| 0 <= i < |init| && Get(init[i], "id") == k;
          assert Get(rows[i], "id") == k;
        } else {
          assert Get(rows[|rows| - 1], "id") == k;
        }
      }
      forall k, i | 0 <= i < |rows| && Get(rows[i], "id") == k ensures k in Index(rows) {
        if i < |init| {
          assert Get(init[i], "id") == k;
        }
      }
    }
  }

  /** A row that no later row shadows is the one its id maps to. */
  lemma {:induction false} IndexLast(rows: seq<Row>, i: int)
    requires 0 <= i < |rows|
    requires forall j :: i < j < |rows| ==> Get(rows[j], "id") != Get(rows[i], "id")
    ensures Get(rows[i], "id") in Index(rows) && Index(rows)[Get(rows[i], "id")] == rows[i]
    decreases |rows|
  {
    var init, last := rows[..|rows| - 1], rows[|rows| - 1];
    assert Index(rows) == Index(init)[Get(last, "id") := last];
    if i < |init| {
      assert init[i] == rows[i];
      forall j | i < j < |init| ensures Get(init[j], "id") != Get(init[i], "id") {
        assert init[j] == rows[j];
      }
      IndexLast(init, i);
    }
  }

  /** An id is in the index exactly when some stored row has it, and it maps to the last such row. */
  lemma {:induction false} IndexSpec(rows: seq<Row>)
    ensures forall k :: k in Index(rows) <==> exists i :: 0 <= i < |rows| && Get(rows[i], "id") == k
    ensures forall k :: k in Index(rows) ==> Get(Index(rows)[k], "id") == k
    ensures forall i :: 0 <= i < |rows| && (forall j :: i < j < |rows| ==> Get(rows[j], "id") != Get(rows[i], "id")) ==>
      Index(rows)[Get(rows[i], "id")] == rows[i]
  {
    IndexKeys(rows);
    IndexIds(rows);
    forall i | 0 <= i < |rows| && (forall j :: i < j < |rows| ==> Get(rows[j], "id") != Get(rows[i], "id"))
      ensures Index(rows)[Get(rows[i], "id")] == rows[i]
    {
      IndexLast(rows, i);
    }
  }

  /** Every id maps to a row carrying that id. */
  lemma {:induction false} IndexIds(rows: seq<Row>)
    ensures forall k :: k in Index(rows) ==> Get(Index(rows)[k], "id") == k
    decreases |rows|
  {
    if rows != [] {
      IndexIds(rows[..|rows| - 1]);
    }
  }


  /** What sync_db decides for one object. */
  datatype Outcome =
    | Inserted(row: Row)            // a new instance with these attributes, for bulk_create
    | Updated(id: Value, row: Row)  // the stored instance, overwritten to this, for bulk_update
    | Unchanged(id: Value)          // counted in not_changed

  /** `then` prepends an outcome to a successful result. */
  function Prepend(x: Outcome, r: Result<(seq<Outcome>, map<Value, Row>), string>): Result<(seq<Outcome>, map<Value, Row>), string>
  {
    if r.Ok? then Ok(([x] + r.value.0, r.value.1)) else r
  }

  /**
   * The loop of sync_db from `objects` on, with the stored instances' current
   * attributes `index`: the outcome of every object and the instances' final
   * attributes. An object whose id the index does not hold is inserted; otherwise
   * the stored instance's fields are compared (getattr failing for a field the instance
   * lacks) and overwritten when one differs. Instances are shared: a later object
   * with the same id is compared with the overwritten attributes. Inserted instances
   * do not enter the index.
   */
  function SyncFrom(objects: seq<Row>, index: map<Value, Row>, fields: set<string>): Result<(seq<Outcome>, map<Value, Row>), string>
    decreases |objects|
  {
    if objects == [] then Ok(([], index))
    else
      var o, id := objects[0], Get(objects[0], "id");
      if id !in index then Prepend(Inserted(Copy(o, fields)), SyncFrom(objects[1..], index, fields))
      else if !(fields <= index[id].Keys) then Err("AttributeError")
      else if Differs(o, index[id], fields) then
        var e' := Overwrite(index[id], o, fields);
        Prepend(Updated(id, e'), SyncFrom(objects[1..], index[id := e'], fields))
      else Prepend(Unchanged(id), SyncFrom(objects[1..], index, fields))
  }

  /**
   * sync_db: nothing to do for an empty input; the fields are the first object's keys,
   * and removing 'id' from them raises KeyError when that object has no id.
   */
  function SyncDbSpec(objects: seq<Row>, stored: seq<Row>): Result<(seq<Outcome>, map<Value, Row>), string>
  {
    if objects == [] then Ok(([], Index(stored)))
    else if "id" !in objects[0] then Err("KeyError")
    else SyncFrom(objects, Index(stored), objects[0].Keys)
  }

  /** A result resumed after the outcomes `done`. */
  function Resume(done: seq<Outcome>, r: Result<(seq<Outcome>, map<Value, Row>), string>): Result<(seq<Outcome>, map<Value, Row>), string>
  {
    if r.Ok? then Ok((done + r.value.0, r.value.1)) else r
  }

  lemma ResumeNothing(r: Result<(seq<Outcome>, map<Value, Row>), string>)
    ensures Resume([], r) == r
  {
    if r.Ok? {
      assert [] + r.value.0 == r.value.0;
    }
  }

  lemma ResumePrepend(done: seq<Outcome>, x: Outcome, r: Result<(seq<Outcome>, map<Value, Row>), string>)
    ensures Resume(done, Prepend(x, r)) == Resume(done + [x], r)
  {
    if r.Ok? {
      assert done + ([x] + r.value.0) == (done + [x]) + r.value.0;
    }
  }

  /** The attributes of the instances to insert, in order. */
  function InsertedRows(outs: seq<Outcome>): seq<Row>
  {
    if outs == [] then []
    else
      var last := outs[|outs| - 1];
      InsertedRows(outs[..|outs| - 1]) + (if last.Inserted? then [last.row] else [])
  }

  /** The ids of the instances appended to to_update, in order (one id may repeat). */
  function UpdatedIds(outs: seq<Outcome>): seq<Value>
  {
    if outs == [] then []
    else
      var last := outs[|outs| - 1];
      UpdatedIds(outs[..|outs| - 1]) + (if last.Updated? then [last.id] else [])
  }

  /** not_changed. */
  function UnchangedCount(outs: seq<Outcome>): nat
  {
    if outs == [] then 0
    else UnchangedCount(outs[..|outs| - 1]) + (if outs[|outs| - 1].Unchanged? then 1 else 0)
  }

  /** Every outcome is of exactly one kind, so the three counts add up to the number of outcomes. */
  lemma {:induction false} OutcomeCounts(outs: seq<Outcome>)
    ensures |InsertedRows(outs)| + |UpdatedIds(outs)| + UnchangedCount(outs) == |outs|
  {
    if outs != [] {
      OutcomeCounts(outs[..|outs| - 1]);
    }
  }

  lemma OutcomeCountsSnoc(outs: seq<Outcome>, x: Outcome)
    ensures InsertedRows(outs + [x]) == InsertedRows(outs) + (if x.Inserted? then [x.row] else [])
    ensures UpdatedIds(outs + [x]) == UpdatedIds(outs) + (if x.Updated? then [x.id] else [])
    ensures UnchangedCount(outs + [x]) == UnchangedCount(outs) + (if x.Unchanged? then 1 else 0)
  {
    assert (outs + [x])[..|outs|] == outs;
  }

  /**
   * The loop's promise: one outcome per object, in order; an object is inserted
   * exactly when its id is not among the stored ids (inserts and updates never
   * change the index's ids), with all fields copied; otherwise its outcome names its
   * id, and after an update the instance holds the object's value in every field.
   */
  lemma {:induction false} SyncFromSpec(objects: seq<Row>, index: map<Value, Row>, fields: set<string>)
    requires SyncFrom(objects, index, fields).Ok?
    ensures var (outs, final) := SyncFrom(objects, index, fields).value;
      && |outs| == |objects|
      && final.Keys == index.Keys
      && forall i :: 0 <= i < |objects| ==>
        && (outs[i].Inserted? <==> Get(objects[i], "id") !in index)
        && (outs[i].Inserted? ==> outs[i].row == Copy(objects[i], fields))
        && (!outs[i].Inserted? ==> outs[i].id == Get(objects[i], "id"))
        && (outs[i].Updated? ==> forall f :: f in fields ==> f in outs[i].row && outs[i].row[f] == Get(objects[i], f))
    decreases |objects|
  {
    if objects != [] {
      var o, id := objects[0], Get(objects[0], "id");
      var index' := index;
      if id in index && Differs(o, index[id], fields) {
        index' := index[id := Overwrite(index[id], o, fields)];
        OverwriteSpec(index[id], o, fields);
      }
      assert index'.Keys == index.Keys;
      var all := SyncFrom(objects, index, fields).value;
      var rest := SyncFrom(objects[1..], index', fields);
      assert SyncFrom(objects, index, fields) == Prepend(all.0[0], rest);
      SyncFromSpec(objects[1..], index', fields);
      var outs, tail := all.0, rest.value.0;
      assert outs == [outs[0]] + tail && all.1 == rest.value.1;
      forall i | 1 <= i < |objects|
        ensures (outs[i].Inserted? <==> Get(objects[i], "id") !in index)
        ensures (outs[i].Inserted? ==> outs[i].row == Copy(objects[i], fields))
        ensures (!outs[i].Inserted? ==> outs[i].id == Get(objects[i], "id"))
        ensures (outs[i].Updated? ==> forall f :: f in fields ==> f in outs[i].row && outs[i].row[f] == Get(objects[i], f))
      {
        assert objects[1..][i - 1] == objects[i] && tail[i - 1] == outs[i];
      }
    }
  }


  /**
   * sync_db's counts: (0, 0, 0) for no objects, and otherwise inserted + updated +
   * not_changed is the number of objects.
   */
  lemma SyncDbCounts(objects: seq<Row>, stored: seq<Row>)
    requires SyncDbSpec(objects, stored).Ok?
    ensures var outs := SyncDbSpec(objects, stored).value.0;
      && |InsertedRows(outs)| + |UpdatedIds(outs)| + UnchangedCount(outs) == |objects|
      && (objects == [] ==> |InsertedRows(outs)| == |UpdatedIds(outs)| == UnchangedCount(outs) == 0)
  {
    var outs := SyncDbSpec(objects, stored).value.0;
    OutcomeCounts(outs);
    if objects != [] {
      SyncFromSpec(objects, Index(stored), objects[0].Keys);
    }
  }

  /** When sync_db fails: a first object without id, or a stored instance lacking one of the fields. */
  lemma SyncDbErrors(objects: seq<Row>, stored: seq<Row>)
    ensures objects != [] && "id" !in objects[0] ==> SyncDbSpec(objects, stored) == Err("KeyError")
    ensures (objects != [] && "id" in objects[0] && Get(objects[0], "id") in Index(stored) &&
             !(objects[0].Keys <= Index(stored)[Get(objects[0], "id")].Keys)) ==>
      SyncDbSpec(objects, stored) == Err("AttributeError")
  {
  }

  /**
   * Building in_db: each instance under its id attribute, a later instance with the
   * same id replacing an earlier one.
   */
  method LoadIndex(stored: seq<Entity>) returns (inDb: map<Value, Entity>)
    ensures inDb.Keys == Index(Rows(stored)).Keys
    ensures forall k :: k in inDb ==> inDb[k] in stored && inDb[k].attrs == Index(Rows(stored))[k]
    ensures forall k :: k in inDb ==> Get(inDb[k].attrs, "id") == k
  {
    inDb := map[];
    for i := 0 to |stored|
      invariant inDb.Keys == Index(Rows(stored[..i])).Keys
      invariant forall k :: k in inDb ==> inDb[k] in stored && inDb[k].attrs == Index(Rows(stored[..i]))[k]
      invariant forall k :: k in inDb ==> Get(inDb[k].attrs, "id") == k
    {
      assert stored[..i + 1][..i] == stored[..i];
      inDb := inDb[Get(stored[i].attrs, "id") := stored[i]];
    }
    assert stored[..|stored|] == stored;
  }

  /** A new instance, `setattr(e, f, o.get(f))` for each field in turn. */
  method NewEntity(o: Row, fields: set<string>) returns (e: Entity)
    ensures fresh(e) && e.attrs == Copy(o, fields)
  {
    e := new Entity(map[]);
    var todo := fields;
    while todo != {}
      invariant todo <= fields
      invariant e.attrs == Copy(o, fields - todo)
      decreases |todo|
    {
      var f :| f in todo;
      e.attrs := e.attrs[f := Get(o, f)];
      todo := todo - {f};
    }
  }

  /** The update branch: each field in turn, overwritten when it differs, noting whether any did. */
  method Assign(e: Entity, o: Row, fields: set<string>) returns (changed: bool)
    requires fields <= e.attrs.Keys
    modifies e
    ensures e.attrs == Overwrite(old(e.attrs), o, fields)
    ensures changed == Differs(o, old(e.attrs), fields)
  {
    var todo := fields;
    changed := false;
    while todo != {}
      invariant todo <= fields
      invariant e.attrs == Overwrite(old(e.attrs), o, fields - todo)
      invariant changed == Differs(o, old(e.attrs), fields - todo)
      decreases |todo|
    {
      var f :| f in todo;
      var v := Get(o, f);
      assert e.attrs[f] == old(e.attrs)[f];
      if e.attrs[f] != v {
        e.attrs := e.attrs[f := v];
        changed := true;
      }
      todo := todo - {f};
    }
  }

  /** One object's step of the loop of sync_db, seen from the outcomes before it. */
  lemma SyncStep(objects: seq<Row>, i: int, index: map<Value, Row>, fields: set<string>, done: seq<Outcome>)
    requires 0 <= i < |objects|
    ensures var o, id := objects[i], Get(objects[i], "id");
      Resume(done, SyncFrom(objects[i..], index, fields)) ==
        if id !in index then Resume(done + [Inserted(Copy(o, fields))], SyncFrom(objects[i + 1..], index, fields))
        else if !(fields <= index[id].Keys) then Err("AttributeError")
        else if Differs(o, index[id], fields) then
          var e' := Overwrite(index[id], o, fields);
          Resume(done + [Updated(id, e')], SyncFrom(objects[i + 1..], index[id := e'], fields))
        else Resume(done + [Unchanged(id)], SyncFrom(objects[i + 1..], index, fields))
  {
    var o, id := objects[i], Get(objects[i], "id");
    assert objects[i..][0] == o && objects[i..][1..] == objects[i + 1..];
    if id !in index {
      ResumePrepend(done, Inserted(Copy(o, fields)), SyncFrom(objects[i + 1..], index, fields));
    } else if !(fields <= index[id].Keys) {
    } else if Differs(o, index[id], fields) {
      var e' := Overwrite(index[id], o, fields);
      ResumePrepend(done, Updated(id, e'), SyncFrom(objects[i + 1..], index[id := e'], fields));
    } else {
      ResumePrepend(done, Unchanged(id), SyncFrom(objects[i + 1..], index, fields));
    }
  }

  /**
   * The branch for an object whose id is loaded: getattr fails on a field the instance
   * lacks; otherwise the instance is overwritten, and the answer says whether a field
   * differed. No other loaded instance changes.
   */
  method UpdateExisting(o: Row, id: Value, fields: set<string>, inDb: map<Value, Entity>, ghost index: map<Value, Row>)
    returns (r: Result<bool, string>)
    requires id in inDb && inDb.Keys == index.Keys && Get(o, "id") == id
    requires forall k :: k in inDb ==> inDb[k].attrs == index[k] && Get(index[k], "id") == k
    modifies inDb[id]
    ensures r.Err? <==> !(fields <= index[id].Keys)
    ensures r.Err? ==> r.error == "AttributeError"
    ensures r.Ok? ==>
      && r.value == Differs(o, index[id], fields)
      && inDb[id].attrs == Overwrite(index[id], o, fields)
      && Get(inDb[id].attrs, "id") == id
      && (!r.value ==> inDb[id].attrs == index[id])
    ensures forall k :: k in inDb && k != id ==> inDb[k].attrs == index[k]
  {
    var e := inDb[id];
    if !(fields <= e.attrs.Keys) {
      return Err("AttributeError");
    }
    OverwriteSpec(e.attrs, o, fields);
    assert forall k :: k in inDb && k != id ==> inDb[k] != e;
    var changed := Assign(e, o, fields);
    r := Ok(changed);
  }

  /** What the loop of sync_db has established after its first `i` objects. */
  ghost predicate Tracked(objects: seq<Row>, i: int, index0: map<Value, Row>, fields: set<string>,
                          inDb: map<Value, Entity>, index: map<Value, Row>, done: seq<Outcome>,
                          toInsert: seq<Entity>, toUpdate: seq<Entity>, notChanged: int)
    reads inDb.Values, set j | 0 <= j < |toInsert| :: toInsert[j]
  {
    && 0 <= i <= |objects|
    && SyncFrom(objects, index0, fields) == Resume(done, SyncFrom(objects[i..], index, fields))
    && inDb.Keys == index.Keys
    && (forall k :: k in inDb ==> inDb[k].attrs == index[k] && Get(index[k], "id") == k)
    && |toInsert| == |InsertedRows(done)|
    && (forall j :: 0 <= j < |toInsert| ==> toInsert[j].attrs == InsertedRows(done)[j])
    && |toUpdate| == |UpdatedIds(done)|
    && (forall j :: 0 <= j < |toUpdate| ==> UpdatedIds(done)[j] in inDb && toUpdate[j] == inDb[UpdatedIds(done)[j]])
    && notChanged == UnchangedCount(done)
  }

  /** The insert branch: a new instance with the object's fields, queued for bulk_create. */
  method InsertStep(objects: seq<Row>, i: int, ghost index0: map<Value, Row>, fields: set<string>,
                    inDb: map<Value, Entity>, ghost index: map<Value, Row>, ghost done: seq<Outcome>,
                    toInsert: seq<Entity>, toUpdate: seq<Entity>, notChanged: int)
    returns (toInsert': seq<Entity>, ghost done': seq<Outcome>)
    requires Tracked(objects, i, index0, fields, inDb, index, done, toInsert, toUpdate, notChanged)
    requires i < |objects| && Get(objects[i], "id") !in inDb
    ensures Tracked(objects, i + 1, index0, fields, inDb, index, done', toInsert', toUpdate, notChanged)
    ensures |toInsert'| == |toInsert| + 1 && toInsert'[..|toInsert|] == toInsert && fresh(toInsert'[|toInsert|])
  {
    var o := objects[i];
    SyncStep(objects, i, index, fields, done);
    var e := NewEntity(o, fields);
    toInsert' := toInsert + [e];
    OutcomeCountsSnoc(done, Inserted(Copy(o, fields)));
    done' := done + [Inserted(Copy(o, fields))];
  }

  /** Queueing the instance of `id` for update keeps the update list aligned with the updated ids. */
  lemma QueueUpdate(done: seq<Outcome>, toUpdate: seq<Entity>, inDb: map<Value, Entity>, id: Value, row: Row)
    requires id in inDb && |toUpdate| == |UpdatedIds(done)|
    requires forall j :: 0 <= j < |toUpdate| ==> UpdatedIds(done)[j] in inDb && toUpdate[j] == inDb[UpdatedIds(done)[j]]
    ensures var done', toUpdate' := done + [Updated(id, row)], toUpdate + [inDb[id]];
      && |toUpdate'| == |UpdatedIds(done')|
      && InsertedRows(done') == InsertedRows(done) && UnchangedCount(done') == UnchangedCount(done)
      && forall j :: 0 <= j < |toUpdate'| ==> UpdatedIds(done')[j] in inDb && toUpdate'[j] == inDb[UpdatedIds(done')[j]]
  {
    OutcomeCountsSnoc(done, Updated(id, row));
    var ids := UpdatedIds(done);
    assert UpdatedIds(done + [Updated(id, row)]) == ids + [id];
  }

  /**
   * The branch for a loaded id: AttributeError for a missing field; otherwise the
   * instance is overwritten and queued for bulk_update when a field differed, and
   * counted as not changed (and left as it was) when none did.
   */
  method ExistingStep(objects: seq<Row>, i: int, ghost index0: map<Value, Row>, fields: set<string>,
                      inDb: map<Value, Entity>, ghost index: map<Value, Row>, ghost done: seq<Outcome>,
                      toInsert: seq<Entity>, toUpdate: seq<Entity>, notChanged: int)
    returns (r: Result<(), string>, toUpdate': seq<Entity>, notChanged': int, ghost index': map<Value, Row>, ghost done': seq<Outcome>)
    requires Tracked(objects, i, index0, fields, inDb, index, done, toInsert, toUpdate, notChanged)
    requires i < |objects| && Get(objects[i], "id") in inDb
    requires forall j :: 0 <= j < |toInsert| ==> toInsert[j] !in inDb.Values
    modifies inDb[Get(objects[i], "id")]
    ensures r.Err? ==> SyncFrom(objects, index0, fields) == Err(r.error)
    ensures r.Ok? ==> Tracked(objects, i + 1, index0, fields, inDb, index', done', toInsert, toUpdate', notChanged')
    ensures r.Ok? ==>
      var e := inDb[Get(objects[i], "id")];
      toUpdate' == toUpdate + [e] || (toUpdate' == toUpdate && e.attrs == old(e.attrs))
  {
    var o := objects[i];
    var id := Get(o, "id");
    SyncStep(objects, i, index, fields, done);
    var e := inDb[id];
    toUpdate', notChanged', index', done' := toUpdate, notChanged, index, done;
    var step := UpdateExisting(o, id, fields, inDb, index);
    if step.Err? {
      return Err(step.error), toUpdate', notChanged', index', done';
    }
    if step.value {
      toUpdate' := toUpdate + [e];
      done' := done + [Updated(id, e.attrs)];
      QueueUpdate(done, toUpdate, inDb, id, e.attrs);
      index' := index[id := e.attrs];
    } else {
      notChanged' := notChanged + 1;
      OutcomeCountsSnoc(done, Unchanged(id));
      done' := done + [Unchanged(id)];
    }
    r := Ok(());
  }

  /** Every loaded instance not queued for update still holds its stored row. */
  ghost predicate Untouched(inDb: map<Value, Entity>, index0: map<Value, Row>, toUpdate: seq<Entity>)
    reads inDb.Values
  {
    forall k :: k in inDb && k in index0 && inDb[k] !in toUpdate ==> inDb[k].attrs == index0[k]
  }

  /** One pass of sync_db's loop: the insert branch or the branch for a loaded id. */
  method SyncOne(objects: seq<Row>, i: int, ghost index0: map<Value, Row>, fields: set<string>,
                 inDb: map<Value, Entity>, ghost index: map<Value, Row>, ghost done: seq<Outcome>,
                 toInsert: seq<Entity>, toUpdate: seq<Entity>, notChanged: int)
    returns (r: Result<(), string>, toInsert': seq<Entity>, toUpdate': seq<Entity>, notChanged': int,
             ghost index': map<Value, Row>, ghost done': seq<Outcome>)
    requires Tracked(objects, i, index0, fields, inDb, index, done, toInsert, toUpdate, notChanged)
    requires i < |objects| && Untouched(inDb, index0, toUpdate)
    requires forall j :: 0 <= j < |toInsert| ==> toInsert[j] !in inDb.Values
    modifies if Get(objects[i], "id") in inDb then {inDb[Get(objects[i], "id")]} else {}
    ensures r.Err? ==> SyncFrom(objects, index0, fields) == Err(r.error)
    ensures r.Ok? ==> Tracked(objects, i + 1, index0, fields, inDb, index', done', toInsert', toUpdate', notChanged')
    ensures r.Ok? ==> Untouched(inDb, index0, toUpdate')
    ensures |toInsert| <= |toInsert'| && forall j :: 0 <= j < |toInsert| ==> toInsert'[j] == toInsert[j]
    ensures |toInsert'| == |toInsert| || (|toInsert'| == |toInsert| + 1 && fresh(toInsert'[|toInsert|]))
  {
    toInsert', toUpdate', notChanged', index', done' := toInsert, toUpdate, notChanged, index, done;
    var id := Get(objects[i], "id");
    if id !in inDb {
      toInsert', done' := InsertStep(objects, i, index0, fields, inDb, index, done, toInsert, toUpdate, notChanged);
      r := Ok(());
    } else {
      r, toUpdate', notChanged', index', done' := ExistingStep(objects, i, index0, fields, inDb, index, done, toInsert, toUpdate, notChanged);
      if r.Ok? {
        forall k | k in inDb && k in index0 && inDb[k] !in toUpdate'
          ensures inDb[k].attrs == index0[k]
        {
          assert inDb[k] !in toUpdate;
          if k != id {
            assert inDb[k] != inDb[id];
          }
        }
      }
    }
  }

  /**
   * The loop of sync_db over the loaded instances `inDb`, whose attributes are `index0`:
   * the counts and lists of the specification; an instance not queued for update keeps
   * its attributes.
   */
  method SyncLoop(objects: seq<Row>, fields: set<string>, inDb: map<Value, Entity>, ghost index0: map<Value, Row>)
    returns (r: Result<(int, int, int), string>, toInsert: seq<Entity>, toUpdate: seq<Entity>)
    requires inDb.Keys == index0.Keys
    requires forall k :: k in inDb ==> inDb[k].attrs == index0[k] && Get(index0[k], "id") == k
    modifies inDb.Values
    ensures var spec := SyncFrom(objects, index0, fields);
      && (r.Err? <==> spec.Err?)
      && (r.Err? ==> r.error == spec.error)
      && (spec.Ok? ==>
        var outs, final := spec.value.0, spec.value.1;
        && r.value == (|InsertedRows(outs)|, |UpdatedIds(outs)|, UnchangedCount(outs))
        && |toInsert| == |InsertedRows(outs)|
        && (forall j :: 0 <= j < |toInsert| ==> fresh(toInsert[j]) && toInsert[j].attrs == InsertedRows(outs)[j])
        && |toUpdate| == |UpdatedIds(outs)|
        && (forall j :: 0 <= j < |toUpdate| ==>
          toUpdate[j] in inDb.Values && UpdatedIds(outs)[j] in final && toUpdate[j].attrs == final[UpdatedIds(outs)[j]])
        && (forall e :: e in inDb.Values && e !in toUpdate ==> e.attrs == old(e.attrs)))
  {
    toInsert, toUpdate := [], [];
    var notChanged := 0;
    ghost var index := index0;
    ghost var done: seq<Outcome> := [];
    assert objects[0..] == objects;
    ResumeNothing(SyncFrom(objects, index, fields));
    for i := 0 to |objects|
      invariant Tracked(objects, i, index0, fields, inDb, index, done, toInsert, toUpdate, notChanged)
      invariant forall j :: 0 <= j < |toInsert| ==> fresh(toInsert[j])
      invariant Untouched(inDb, index0, toUpdate)
    {
      var step;
      ghost var before := toInsert;
      step, toInsert, toUpdate, notChanged, index, done := SyncOne(objects, i, index0, fields, inDb, index, done, toInsert, toUpdate, notChanged);
      if step.Err? {
        return Err(step.error), toInsert, toUpdate;
      }
      assert forall j :: 0 <= j < |before| ==> toInsert[j] == before[j];
    }
    assert objects[|objects|..] == [] && done + [] == done;
    assert SyncFrom(objects, index0, fields) == Ok((done, index));
    r := Ok((|toInsert|, |toUpdate|, notChanged));
  }

  /**
   * sync_db, short of the two bulk writes: it returns the three counts of the
   * specification, the new instances to create (fresh, with the inserted rows'
   * attributes) and the stored instances to update (each carrying its id's final
   * attributes); a stored instance not queued for update keeps its attributes. When
   * it fails no bulk write happens, so the instances' attributes then matter no more.
   */
  method SyncDb(objects: seq<Row>, stored: seq<Entity>)
    returns (r: Result<(int, int, int), string>, toInsert: seq<Entity>, toUpdate: seq<Entity>)
    modifies set e | e in stored
    ensures var spec := SyncDbSpec(objects, old(Rows(stored)));
      && (r.Err? <==> spec.Err?)
      && (r.Err? ==> r.error == spec.error)
      && (spec.Ok? ==>
        var outs, final := spec.value.0, spec.value.1;
        && r.value == (|InsertedRows(outs)|, |UpdatedIds(outs)|, UnchangedCount(outs))
        && |toInsert| == |InsertedRows(outs)|
        && (forall j :: 0 <= j < |toInsert| ==> fresh(toInsert[j]) && toInsert[j].attrs == InsertedRows(outs)[j])
        && |toUpdate| == |UpdatedIds(outs)|
        && (forall j :: 0 <= j < |toUpdate| ==>
          toUpdate[j] in stored && UpdatedIds(outs)[j] in final && toUpdate[j].attrs == final[UpdatedIds(outs)[j]])
        && (forall e :: e in stored && e !in toUpdate ==> e.attrs == old(e.attrs)))
  {
    toInsert, toUpdate := [], [];
    if |objects| == 0 {
      return Ok((0, 0, 0)), toInsert, toUpdate;
    }
    var inDb := LoadIndex(stored);
    var fields := objects[0].Keys;
    if "id" !in fields {
      return Err("KeyError"), toInsert, toUpdate;
    }
    r, toInsert, toUpdate := SyncLoop(objects, fields, inDb, Index(Rows(stored)));
  }

  // ---------------------------------------------------------------------------
  // insert_detections

  /** The keys insert_detections copies from each record, in the order it copies them. */
  const CopiedKeys: seq<string> := ["id", "device_id", "user_id", "team_id", "timestamp", "time_received",
    "source", "provider", "metadata", "width", "height", "x", "y", "latitude", "longitude", "altitude", "accuracy"]

  /** `o.get(f)` on a hit record. */
  function HitGet(d: Hit, f: string): Value
  {
    if f == "id" then Int(d.id)
    else if f == "device_id" then Int(d.deviceId)
    else if f == "timestamp" then Int(d.timestamp)
    else if f == "width" then Int(d.width)
    else if f == "height" then Int(d.height)
    else if f == "x" then Int(d.x)
    else if f == "y" then Int(d.y)
    else Get(d.other, f)
  }

  /**
   * A Detection row as insert_detections fills it. `None` stands for a column the code
   * leaves at its default; `mime` is 'image/png' for a record with an image, which is
   * also the column's default.
   */
  datatype DetectionRow = DetectionRow(
    fields: map<string, Value>,          // the copied keys
    hasImage: bool,
    frameContent: Option<Bytes>,         // frame_content
    detectionSize: Option<(int, int)>,   // detection_width, detection_height
    detectionInner: Option<bool>,        // detection_inner
    mime: string,
    mlClass: Option<int>,
    mlHotPixel: Option<int>)

  /** `ml_hot_pixel` as intended: 5 for a record the hot-pixel classifier flagged with a count above 1, else 1. */
  function MlHotPixel(m: Marks): int
  {
    if m.hotPixel.Some? && m.hotPixel.value > 1 then 5 else 1
  }

  /**
   * `5 if o.get('artifact_hot_pixel') > 1 else 1` as written: the key is absent on every
   * record the hot-pixel classifier did not flag, and `None > 1` raises TypeError.
   */
  function MlHotPixelAsWritten(m: Marks): Result<int, string>
  {
    if m.hotPixel.None? then Err("TypeError")
    else Ok(if m.hotPixel.value > 1 then 5 else 1)
  }

  /**
   * The row insert_detections builds for one record, with the intended detection_inner
   * (`detection_width == detection_height`, a frame that was not cut at an edge) and the
   * intended ml_hot_pixel.
   */
  function ToRow(d: Hit): DetectionRow
    reads d
  {
    var hasImage := d.image.Some?;
    DetectionRow(
      map f | f in CopiedKeys :: HitGet(d, f),
      hasImage,
      if hasImage then d.frameDecoded else None,
      if hasImage then Some((d.image.value.width, d.image.value.height)) else None,
      if hasImage then Some(d.image.value.width == d.image.value.height) else None,
      "image/png",
      if hasImage then Some(if d.marks.artifact then 4 else 0) else None,
      if hasImage then Some(MlHotPixel(d.marks)) else None)
  }

  /**
   * The row as written. `d.detection_width == d.detection_inner` reads `detection_inner`
   * before anything sets it, and the Detection model declares no such field, so every
   * record with an image raises AttributeError there, before ml_hot_pixel is computed.
   */
  function ToRowAsWritten(d: Hit): Result<DetectionRow, string>
    reads d
  {
    if d.image.Some? then Err("AttributeError") else Ok(ToRow(d))
  }

  /**
   * The row with detection_inner corrected but ml_hot_pixel as written: the comparison
   * fails for a record with an image and no hot-pixel evidence.
   */
  function ToRowInnerCorrected(d: Hit): Result<DetectionRow, string>
    reads d
  {
    if d.image.Some? && MlHotPixelAsWritten(d.marks).Err? then Err("TypeError") else Ok(ToRow(d))
  }

  /**
   * What a row holds: every copied key from the record; has_image exactly when the
   * record has an image; for such a record the decoded frame, the image's own size,
   * ml_class 4 exactly for an artifact (else 0) and ml_hot_pixel 5 exactly for
   * hot-pixel evidence above 1 (else 1); without an image none of these is set.
   */
  lemma ToRowSpec(d: Hit)
    ensures var row := ToRow(d);
      && row.fields.Keys == set f | f in CopiedKeys
      && (forall f :: f in row.fields ==> row.fields[f] == HitGet(d, f))
      && (row.hasImage <==> d.image.Some?)
      && (row.hasImage ==>
        && row.frameContent == d.frameDecoded
        && row.detectionSize == Some((d.image.value.width, d.image.value.height))
        && (row.detectionInner == Some(true) <==> d.image.value.width == d.image.value.height)
        && (row.mlClass == Some(4) <==> d.marks.artifact)
        && (row.mlClass == Some(0) <==> !d.marks.artifact)
        && (row.mlHotPixel == Some(5) <==> d.marks.hotPixel.Some? && d.marks.hotPixel.value > 1)
        && (row.mlHotPixel == Some(1) <==> !(d.marks.hotPixel.Some? && d.marks.hotPixel.value > 1)))
      && (!row.hasImage ==> row.frameContent.None? && row.detectionSize.None? && row.detectionInner.None? && row.mlClass.None? && row.mlHotPixel.None?)
  {
  }

  /**
   * Every imported detection is stored as a PNG file: its get_filename is the
   * detection's directory, a separator and a base name that ends in ".png".
   */
  lemma ImportedFramesArePng(d: Hit, mediaRoot: string)
    ensures Extension(ToRow(d).mime) == "png"
    ensures var name := BaseName(d.id, ToRow(d).mime);
      && GetFilename(mediaRoot, d.id, ToRow(d).mime) == GetFilepath(mediaRoot, d.id) + "/" + name
      && |name| >= 4 && name[|name| - 4..] == ".png"
  {
    FileInDirectory(mediaRoot, d.id, ToRow(d).mime);
    BaseNameSpec(d.id, ToRow(d).mime);
  }

  /**
   * As written, insert_detections fails on every record with an image, at the
   * detection_inner line; a record without an image gets the intended row.
   */
  lemma AsWrittenFailsOnImage(d: Hit)
    ensures ToRowAsWritten(d).Err? <==> d.image.Some?
    ensures ToRowAsWritten(d).Err? ==> ToRowAsWritten(d).error == "AttributeError"
    ensures ToRowAsWritten(d).Ok? ==> ToRowAsWritten(d).value == ToRow(d) && !ToRow(d).hasImage
  {
  }

  /**
   * With detection_inner corrected, insert_detections still fails on a record with an
   * image that the hot-pixel classifier left unflagged (here: a fresh record whose
   * resolution group had fewer than `often` distinct positions); where it does not fail
   * it builds the intended row.
   */
  lemma AsWrittenFailsOnUnflagged(d: Hit, count: int, often: int)
    ensures d.image.Some? && d.marks.hotPixel.None? ==> ToRowInnerCorrected(d) == Err("TypeError")
    ensures count < often ==> MlHotPixelAsWritten(HotPixelOutcome(Unmarked, count, often)) == Err("TypeError")
    ensures ToRowInnerCorrected(d).Ok? ==> ToRowInnerCorrected(d).value == ToRow(d)
    ensures MlHotPixelAsWritten(d.marks).Ok? ==> MlHotPixelAsWritten(d.marks).value == MlHotPixel(d.marks)
  {
  }

  /**
   * With the intended comparison, ml_hot_pixel records the hot-pixel verdict: for a
   * record without earlier evidence and `often` of at least 2, it is 5 exactly when
   * the resolution group reached `often` distinct positions.
   */
  lemma MlHotPixelRecordsVerdict(m: Marks, count: int, often: int)
    requires m.hotPixel.None? && often >= 2
    ensures MlHotPixel(HotPixelOutcome(m, count, often)) == 5 <==> count >= often
  {
  }

  /** insert_detections: one row per record, in order, and the number of rows. */
  method InsertDetections(objects: seq<Hit>) returns (count: int, rows: seq<DetectionRow>)
    ensures count == |objects| == |rows|
    ensures forall i :: 0 <= i < |objects| ==> rows[i] == ToRow(objects[i])
  {
    rows := [];
    for i := 0 to |objects|
      invariant |rows| == i
      invariant forall k :: 0 <= k < i ==> rows[k] == ToRow(objects[k])
    {
      var d := objects[i];
      var hasImage := d.image.Some?;
      var row := DetectionRow(map f | f in CopiedKeys :: HitGet(d, f), hasImage, None, None, None, "image/png", None, None);
      if hasImage {
        var img := d.image.value;
        row := row.(frameContent := d.frameDecoded, detectionSize := Some((img.width, img.height)),
          detectionInner := Some(img.width == img.height),
          mlClass := Some(if d.marks.artifact then 4 else 0),
          mlHotPixel := Some(if d.marks.hotPixel.Some? && d.marks.hotPixel.value > 1 then 5 else 1));
      }
      rows := rows + [row];
    }
    count := |rows|;
  }
}
