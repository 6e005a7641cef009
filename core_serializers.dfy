/**
 * The bulk-operation helpers of `CustomCreateUpdateDeleteObjectOperationSerializer`
 * and `FieldListUpdateSerializer`. A request carries a list of records, each
 * tagged with an `operation` ("add", "update" or "delete"); they are applied
 * to a table in that order. A list field is synchronised with a target list
 * by set differences.
 */
module CoreSerializers {
  import opened Wrappers
  import opened Values

  /** The elements of `xs` that satisfy `p`, in order: a list comprehension with a condition. */
  function Filter<T(!new)>(xs: seq<T>, p: T -> bool): (r: seq<T>)
    ensures |r| <= |xs|
    ensures forall x :: x in r <==> x in xs && p(x)
    decreases |xs|
  {
    if |xs| == 0 then []
    else
      var init := xs[..|xs| - 1];
      assert xs == init + [xs[|xs| - 1]];
      Filter(init, p) + (if p(xs[|xs| - 1]) then [xs[|xs| - 1]] else [])
  }

  /** Filtering one more element of a prefix appends it exactly when it passes. */
  lemma FilterStep<T(!new)>(xs: seq<T>, i: int, p: T -> bool)
    requires 0 <= i < |xs|
    ensures Filter(xs[..i + 1], p) == Filter(xs[..i], p) + (if p(xs[i]) then [xs[i]] else [])
  {
    assert xs[..i + 1][..i] == xs[..i];
  }

  /** Filtering a concatenation filters each part and keeps their order. */
  lemma {:induction false} FilterConcat<T(!new)>(a: seq<T>, b: seq<T>, p: T -> bool)
    ensures Filter(a + b, p) == Filter(a, p) + Filter(b, p)
    decreases |b|
  {
    if |b| == 0 {
      assert a + b == a;
    } else {
      var b' := b[..|b| - 1];
      assert (a + b)[..|a + b| - 1] == a + b';
      assert (a + b)[|a + b| - 1] == b[|b| - 1];
      FilterConcat(a, b', p);
    }
  }

  /** Nothing passes the filter when no element passes the test. */
  lemma {:induction false} FilterNone<T(!new)>(xs: seq<T>, p: T -> bool)
    requires forall x :: x in xs ==> !p(x)
    ensures Filter(xs, p) == []
    decreases |xs|
  {
    if |xs| > 0 {
      FilterNone(xs[..|xs| - 1], p);
    }
  }

  /** The elements that pass a test and those that fail it together are all of `xs`. */
  lemma {:induction false} FilterPartition<T(!new)>(xs: seq<T>, p: T -> bool, q: T -> bool)
    requires forall x :: q(x) == !p(x)
    ensures |Filter(xs, p)| + |Filter(xs, q)| == |xs|
    decreases |xs|
  {
    if |xs| > 0 {
      FilterPartition(xs[..|xs| - 1], p, q);
    }
  }

  /** `instance.get(field) == value`. */
  function Has(field: string, value: Value): Row -> bool {
    r => Get(r, field) == value
  }

  /** A row matches the keyword arguments of a `filter(**kwargs)`: every one is present with that value. */
  predicate Matches(r: Row, kwargs: Row) {
    forall k :: k in kwargs ==> k in r && r[k] == kwargs[k]
  }

  /** What `_operation_filter` returns: records, or for "delete" their ids. */
  datatype Filtered = Records(records: seq<Row>) | Ids(ids: seq<Value>)

  /** The `id` of each record, `None` where it has none. */
  function IdsOf(records: seq<Row>): seq<Value> {
    seq(|records|, i requires 0 <= i < |records| => Get(records[i], "id"))
  }

  /** `_operation_filter(data, operation)`. */
  function OperationFilter(data: seq<Row>, op: string): Filtered {
    if op == "add" then Records(Filter(data, Has("operation", VStr("add"))))
    else if op == "delete" then Ids(IdsOf(Filter(data, Has("operation", VStr("delete")))))
    else if op == "update" then Records(Filter(data, Has("operation", VStr("update"))))
    else Records([])
  }

  /**
   * For "add" and "update" the filter keeps exactly the records tagged with
   * that operation; for "delete" it gives one id per record tagged "delete"
   * (None for a record without one); any other operation gives nothing.
   */
  lemma OperationFilterSelects(data: seq<Row>, op: string)
    ensures op == "add" || op == "update" ==>
      && OperationFilter(data, op).Records?
      && forall x :: x in OperationFilter(data, op).records <==> x in data && Get(x, "operation") == VStr(op)
    ensures op == "delete" ==>
      && OperationFilter(data, op).Ids?
      && |OperationFilter(data, op).ids| <= |data|
      && forall v :: v in OperationFilter(data, op).ids <==>
           exists x :: x in data && Get(x, "operation") == VStr("delete") && Get(x, "id") == v
    ensures op != "add" && op != "update" && op != "delete" ==> OperationFilter(data, op) == Records([])
  {
    if op == "delete" {
      var recs := Filter(data, Has("operation", VStr("delete")));
      var ids := IdsOf(recs);
      forall v ensures v in ids <==> exists x :: x in data && Get(x, "operation") == VStr("delete") && Get(x, "id") == v {
        if v in ids {
          var i :| 0 <= i < |ids| && ids[i] == v;
          assert recs[i] in recs;
        }
        if exists x :: x in data && Get(x, "operation") == VStr("delete") && Get(x, "id") == v {
          var x :| x in data && Get(x, "operation") == VStr("delete") && Get(x, "id") == v;
          var i :| 0 <= i < |recs| && recs[i] == x;
          assert ids[i] == v;
        }
      }
    }
  }

  /** The filter keeps input order: the records of a concatenation are the records of each part, in turn. */
  lemma OperationFilterConcat(a: seq<Row>, b: seq<Row>, op: string)
    ensures op != "delete" ==> OperationFilter(a + b, op).records == OperationFilter(a, op).records + OperationFilter(b, op).records
    ensures op == "delete" ==> OperationFilter(a + b, op).ids == OperationFilter(a, op).ids + OperationFilter(b, op).ids
  {
    FilterConcat(a, b, Has("operation", VStr(op)));
    if op == "delete" {
      var p := Has("operation", VStr("delete"));
      assert Filter(a + b, p) == Filter(a, p) + Filter(b, p);
      assert IdsOf(Filter(a, p) + Filter(b, p)) == IdsOf(Filter(a, p)) + IdsOf(Filter(b, p));
    }
  }

  /** A database table: its rows, in insertion order. */
  class Table {
    var rows: seq<Row>

    constructor (rows: seq<Row>)
      ensures this.rows == rows
    {
      this.rows := rows;
    }
  }

  /** How a bulk operation fails. */
  datatype CrudError =
    | Invalid(data: Row)       // the serializer rejected the data of an "add" record
    | MissingKey(key: string)  // KeyError from `instance.pop("id")`

  /**
   * The rows `_perform_create` saves for the "add" records, and its result.
   * `serialize` stands for the operation serializer: it validates the data
   * (`{**instance, **extra_create_kwargs}`, where the extra keyword arguments
   * win) and yields the row it saves. Records are saved one by one; the first
   * invalid one stops the loop, and the rows saved before it stay saved.
   * `saved` holds the rows the loop has saved so far.
   */
  function CreateFrom(records: seq<Row>, extra: Row, serialize: Row -> Option<Row>, saved: seq<Row>): (seq<Row>, Result<nat, CrudError>)
    decreases |records|
  {
    if |records| == 0 then (saved, Success(|saved|))
    else
      match serialize(records[0] + extra)
      case None => (saved, Failure(Invalid(records[0] + extra)))
      case Some(row) => CreateFrom(records[1..], extra, serialize, saved + [row])
  }

  function CreateAll(records: seq<Row>, extra: Row, serialize: Row -> Option<Row>): (seq<Row>, Result<nat, CrudError>) {
    CreateFrom(records, extra, serialize, [])
  }

  lemma {:induction false} CreateFromSavesValidPrefix(records: seq<Row>, extra: Row, serialize: Row -> Option<Row>, saved: seq<Row>)
    ensures var r := CreateFrom(records, extra, serialize, saved);
      && |saved| <= |r.0| <= |saved| + |records|
      && r.0[..|saved|] == saved
      && (forall i :: |saved| <= i < |r.0| ==> serialize(records[i - |saved|] + extra) == Some(r.0[i]))
      && (r.1.Success? ==> r.1.value == |r.0| == |saved| + |records|)
      && (r.1.Failure? ==>
            && |r.0| < |saved| + |records|
            && serialize(records[|r.0| - |saved|] + extra).None?
            && r.1.error == Invalid(records[|r.0| - |saved|] + extra))
    decreases |records|
  {
    if |records| > 0 && serialize(records[0] + extra).Some? {
      var row := serialize(records[0] + extra).value;
      var saved' := saved + [row];
      CreateFromSavesValidPrefix(records[1..], extra, serialize, saved');
      var r := CreateFrom(records, extra, serialize, saved);
      assert r == CreateFrom(records[1..], extra, serialize, saved');
      assert r.0[..|saved|] == r.0[..|saved'|][..|saved|];
      forall i | |saved| <= i < |r.0| ensures serialize(records[i - |saved|] + extra) == Some(r.0[i]) {
        if i == |saved| {
          assert r.0[i] == r.0[..|saved'|][i];
        } else {
          assert records[1..][i - |saved'|] == records[i - |saved|];
        }
      }
      if r.1.Failure? {
        assert records[1..][|r.0| - |saved'|] == records[|r.0| - |saved|];
      }
    }
  }

  /**
   * What the create loop does: the saved rows are the serializer's rows for
   * a prefix of the records, in order; on success that prefix is all of them
   * and the count is their number; on failure the record right after the
   * prefix is the first one the serializer rejects, and nothing after it is
   * saved.
   */
  lemma CreateAllSavesValidPrefix(records: seq<Row>, extra: Row, serialize: Row -> Option<Row>)
    ensures var r := CreateAll(records, extra, serialize);
      && |r.0| <= |records|
      && (forall i :: 0 <= i < |r.0| ==> serialize(records[i] + extra) == Some(r.0[i]))
      && (r.1.Success? ==> r.1.value == |r.0| == |records|)
      && (r.1.Failure? ==>
            && |r.0| < |records|
            && serialize(records[|r.0|] + extra).None?
            && r.1.error == Invalid(records[|r.0|] + extra))
  {
    CreateFromSavesValidPrefix(records, extra, serialize, []);
  }

  /** The loop of `_perform_create` over the given records. */
  method CreateRecords(table: Table, records: seq<Row>, extra: Row, serialize: Row -> Option<Row>) returns (r: Result<nat, CrudError>)
    modifies table
    ensures (table.rows, r) == (old(table.rows) + CreateAll(records, extra, serialize).0, CreateAll(records, extra, serialize).1)
  {
    ghost var goal := CreateAll(records, extra, serialize);
    ghost var saved: seq<Row> := [];
    var i := 0;
    assert records[0..] == records;
    while i < |records|
      invariant 0 <= i <= |records| && i == |saved|
      invariant table.rows == old(table.rows) + saved
      invariant goal == CreateFrom(records[i..], extra, serialize, saved)
    {
      var row := serialize(records[i] + extra);
      assert records[i..][0] == records[i];
      if row.None? {
        return Failure(Invalid(records[i] + extra));
      }
      assert records[i..][1..] == records[i + 1..];
      table.rows := table.rows + [row.value];
      saved := saved + [row.value];
      i := i + 1;
    }
    assert records[i..] == [];
    return Success(i);
  }

  /** `_perform_create`: saves the rows `CreateAll` describes for the "add" records and returns its result. */
  method PerformCreate(table: Table, data: seq<Row>, extra: Row, serialize: Row -> Option<Row>) returns (r: Result<nat, CrudError>)
    modifies table
    ensures var (saved, result) := CreateAll(OperationFilter(data, "add").records, extra, serialize);
      table.rows == old(table.rows) + saved && r == result
  {
    r := CreateRecords(table, OperationFilter(data, "add").records, extra, serialize);
  }

  /** The rows a `filter(id=id, **kwargs)` selects. */
  function SelectsId(id: Value, kwargs: Row): Row -> bool {
    r => Get(r, "id") == id && Matches(r, kwargs)
  }

  /** `filter(id=id, **kwargs).update(**fields)` on the rows. */
  function UpdateWhere(rows: seq<Row>, id: Value, kwargs: Row, fields: Row): seq<Row> {
    seq(|rows|, i requires 0 <= i < |rows| => if SelectsId(id, kwargs)(rows[i]) then rows[i] + fields else rows[i])
  }

  /**
   * An update changes only the selected rows: each of them takes the given
   * values and keeps its other columns, and every other row is untouched.
   */
  lemma UpdateTouchesOnlySelected(rows: seq<Row>, id: Value, kwargs: Row, fields: Row)
    ensures |UpdateWhere(rows, id, kwargs, fields)| == |rows|
    ensures forall i :: 0 <= i < |rows| && !SelectsId(id, kwargs)(rows[i]) ==> UpdateWhere(rows, id, kwargs, fields)[i] == rows[i]
    ensures forall i, k :: 0 <= i < |rows| && SelectsId(id, kwargs)(rows[i]) && k in fields ==>
      k in UpdateWhere(rows, id, kwargs, fields)[i] && UpdateWhere(rows, id, kwargs, fields)[i][k] == fields[k]
    ensures forall i, k :: 0 <= i < |rows| && SelectsId(id, kwargs)(rows[i]) && k in rows[i] && k !in fields ==>
      k in UpdateWhere(rows, id, kwargs, fields)[i] && UpdateWhere(rows, id, kwargs, fields)[i][k] == rows[i][k]
  {
  }

  /**
   * The number `filter(id=id, **kwargs).update(**fields)` returns: the rows
   * it selects, or 0 when there is nothing to write, since Django then sends
   * no query at all.
   */
  function UpdatedCount(rows: seq<Row>, id: Value, kwargs: Row, fields: Row): nat {
    if fields == map[] then 0 else |Filter(rows, SelectsId(id, kwargs))|
  }

  /**
   * The rows and result of `_perform_update` over the "update" records: each
   * record loses its `operation` and `id` (KeyError without an `id`, after
   * the earlier records were applied) and its remaining entries are written
   * to the rows it selects; `count` sums what each `update` returned.
   */
  function UpdateFrom(rows: seq<Row>, records: seq<Row>, kwargs: Row, count: nat): (r: (seq<Row>, Result<nat, CrudError>))
    ensures |r.0| == |rows|
    ensures r.1.Failure? ==> r.1.error == MissingKey("id")
    decreases |records|
  {
    if |records| == 0 then (rows, Success(count))
    else
      var record := records[0] - {"operation"};
      if "id" !in record then (rows, Failure(MissingKey("id")))
      else
        var id := record["id"];
        UpdateFrom(UpdateWhere(rows, id, kwargs, record - {"id"}), records[1..], kwargs, count + UpdatedCount(rows, id, kwargs, record - {"id"}))
  }

  function UpdateAll(rows: seq<Row>, records: seq<Row>, kwargs: Row): (seq<Row>, Result<nat, CrudError>) {
    UpdateFrom(rows, records, kwargs, 0)
  }

  /** An update pass succeeds exactly when every record carries an id. */
  lemma {:induction false} UpdateFromSucceedsIff(rows: seq<Row>, records: seq<Row>, kwargs: Row, count: nat)
    ensures UpdateFrom(rows, records, kwargs, count).1.Success? <==> forall i :: 0 <= i < |records| ==> "id" in records[i]
    decreases |records|
  {
    if |records| > 0 {
      var record := records[0] - {"operation"};
      if "id" in record {
        var id := record["id"];
        UpdateFromSucceedsIff(UpdateWhere(rows, id, kwargs, record - {"id"}), records[1..], kwargs, count + UpdatedCount(rows, id, kwargs, record - {"id"}));
        assert forall i :: 1 <= i < |records| ==> records[1..][i - 1] == records[i];
      }
    }
  }

  /** When no record selects any row, an update pass changes nothing and counts nothing. */
  lemma {:induction false} UpdateFromWithoutMatches(rows: seq<Row>, records: seq<Row>, kwargs: Row, count: nat)
    requires forall i :: 0 <= i < |records| ==> "id" in records[i]
    requires forall i, r :: 0 <= i < |records| && r in rows ==> !SelectsId(records[i]["id"], kwargs)(r)
    ensures UpdateFrom(rows, records, kwargs, count) == (rows, Success(count))
    decreases |records|
  {
    if |records| > 0 {
      var record := records[0] - {"operation"};
      var id := record["id"];
      assert id == records[0]["id"];
      forall j | 0 <= j < |rows| ensures !SelectsId(id, kwargs)(rows[j]) {
        assert rows[j] in rows;
      }
      var next := UpdateWhere(rows, id, kwargs, record - {"id"});
      assert next == rows;
      FilterNone(rows, SelectsId(id, kwargs));
      assert forall i :: 1 <= i < |records| ==> records[1..][i - 1] == records[i];
      UpdateFromWithoutMatches(rows, records[1..], kwargs, count);
    }
  }

  /**
   * An "update" record carrying nothing but its operation and id writes
   * nothing and counts 0, however many rows its id selects.
   */
  lemma UpdateWithoutValuesCountsNothing(rows: seq<Row>, id: Value, kwargs: Row)
    ensures UpdateAll(rows, [map["operation" := VStr("update"), "id" := id]], kwargs) == (rows, Success(0))
  {
    var record := map["operation" := VStr("update"), "id" := id] - {"operation"};
    assert record == map["id" := id];
    assert record - {"id"} == map[];
    var empty: Row := map[];
    forall i | 0 <= i < |rows| ensures rows[i] + empty == rows[i] {
    }
    assert UpdateWhere(rows, id, kwargs, empty) == rows;
    var records := [map["operation" := VStr("update"), "id" := id]];
    assert records[1..] == [];
    assert UpdateAll(rows, records, kwargs) == UpdateFrom(UpdateWhere(rows, id, kwargs, empty), [], kwargs, 0);
  }

  /**
   * `filter(id=id, **kwargs).update(**fields)`: the rows with the values
   * written to the selected ones, and their number; with no values to write
   * nothing changes and the number is 0.
   */
  method UpdateSelected(rows: seq<Row>, id: Value, kwargs: Row, fields: Row) returns (updated: seq<Row>, n: nat)
    ensures updated == UpdateWhere(rows, id, kwargs, fields)
    ensures fields == map[] ==> updated == rows && n == 0
    ensures fields != map[] ==> n == |Filter(rows, SelectsId(id, kwargs))|
  {
    if fields == map[] {
      assert forall i :: 0 <= i < |rows| ==> rows[i] + fields == rows[i];
      return rows, 0;
    }
    updated := [];
    n := 0;
    var i := 0;
    while i < |rows|
      invariant 0 <= i <= |rows|
      invariant updated == UpdateWhere(rows[..i], id, kwargs, fields)
      invariant n == |Filter(rows[..i], SelectsId(id, kwargs))|
    {
      assert rows[..i + 1][..i] == rows[..i];
      if Get(rows[i], "id") == id && Matches(rows[i], kwargs) {
        updated := updated + [rows[i] + fields];
        n := n + 1;
      } else {
        updated := updated + [rows[i]];
      }
      i := i + 1;
    }
    assert rows[..i] == rows;
  }

  /** One step of an update pass: the first record is applied, then the rest to the rows it leaves. */
  lemma UpdateFromStep(rows: seq<Row>, records: seq<Row>, kwargs: Row, count: nat, record: Row)
    requires |records| > 0 && record == records[0] - {"operation"} && "id" in record
    ensures UpdateFrom(rows, records, kwargs, count)
         == UpdateFrom(UpdateWhere(rows, record["id"], kwargs, record - {"id"}), records[1..], kwargs,
                       count + UpdatedCount(rows, record["id"], kwargs, record - {"id"}))
  {
  }

  /** The loop of `_perform_update` over the given records. */
  method ApplyUpdates(table: Table, records: seq<Row>, kwargs: Row) returns (r: Result<nat, CrudError>)
    modifies table
    ensures (table.rows, r) == UpdateAll(old(table.rows), records, kwargs)
  {
    var rows := table.rows;
    ghost var goal := UpdateAll(rows, records, kwargs);
    var count := 0;
    var i := 0;
    assert records[0..] == records;
    while i < |records|
      invariant 0 <= i <= |records|
      invariant goal == UpdateFrom(rows, records[i..], kwargs, count)
    {
      assert records[i..][0] == records[i];
      var record := records[i] - {"operation"};
      if "id" !in record {
        table.rows := rows;
        return Failure(MissingKey("id"));
      }
      UpdateFromStep(rows, records[i..], kwargs, count, record);
      var n;
      rows, n := UpdateSelected(rows, record["id"], kwargs, record - {"id"});
      assert records[i..][1..] == records[i + 1..];
      count := count + n;
      i := i + 1;
    }
    assert records[i..] == [];
    table.rows := rows;
    return Success(count);
  }

  /** `_perform_update`: applies the "update" records as `UpdateAll` describes. */
  method PerformUpdate(table: Table, data: seq<Row>, kwargs: Row) returns (r: Result<nat, CrudError>)
    modifies table
    ensures (table.rows, r) == UpdateAll(old(table.rows), OperationFilter(data, "update").records, kwargs)
  {
    r := ApplyUpdates(table, OperationFilter(data, "update").records, kwargs);
  }

  /** The rows a `filter(id__in=ids, **kwargs)` selects. */
  function SelectsIds(ids: seq<Value>, kwargs: Row): Row -> bool {
    r => Get(r, "id") in ids && Matches(r, kwargs)
  }

  function KeepsIds(ids: seq<Value>, kwargs: Row): Row -> bool {
    r => !(Get(r, "id") in ids && Matches(r, kwargs))
  }

  /**
   * Deleting by ids removes exactly the selected rows and keeps the others in
   * order; the count returned plus the rows kept is the table's size.
   */
  lemma DeleteRemovesExactlySelected(rows: seq<Row>, ids: seq<Value>, kwargs: Row)
    ensures forall r :: r in Filter(rows, KeepsIds(ids, kwargs)) <==> r in rows && !(Get(r, "id") in ids && Matches(r, kwargs))
    ensures |Filter(rows, SelectsIds(ids, kwargs))| + |Filter(rows, KeepsIds(ids, kwargs))| == |rows|
  {
    FilterPartition(rows, SelectsIds(ids, kwargs), KeepsIds(ids, kwargs));
  }

  /** `_perform_delete`: deletes the rows whose id is one of the "delete" ids and that match the kwargs, and counts them. */
  method PerformDelete(table: Table, data: seq<Row>, kwargs: Row) returns (count: nat)
    modifies table
    ensures var ids := OperationFilter(data, "delete").ids;
      && table.rows == Filter(old(table.rows), KeepsIds(ids, kwargs))
      && count == |Filter(old(table.rows), SelectsIds(ids, kwargs))|
  {
    var ids := OperationFilter(data, "delete").ids;
    var rows := table.rows;
    var kept: seq<Row> := [];
    count := 0;
    var i := 0;
    while i < |rows|
      invariant 0 <= i <= |rows|
      invariant kept == Filter(rows[..i], KeepsIds(ids, kwargs))
      invariant count == |Filter(rows[..i], SelectsIds(ids, kwargs))|
    {
      FilterStep(rows, i, KeepsIds(ids, kwargs));
      FilterStep(rows, i, SelectsIds(ids, kwargs));
      if Get(rows[i], "id") in ids && Matches(rows[i], kwargs) {
        count := count + 1;
      } else {
        kept := kept + [rows[i]];
      }
      i := i + 1;
    }
    assert rows[..i] == rows;
    table.rows := kept;
  }

  /** The counts `perform_crud_operations` returns. */
  datatype CrudCounts = CrudCounts(add: nat, update: nat, delete: nat)

  /**
   * `perform_crud_operations`: creates, then updates, then deletes, each on
   * the table the previous step left; a failing step stops the rest.
   */
  function CrudOperations(rows: seq<Row>, data: seq<Row>, serialize: Row -> Option<Row>, addKwargs: Row, deleteKwargs: Row, updateKwargs: Row)
    : (seq<Row>, Result<CrudCounts, CrudError>)
  {
    var (created, added) := CreateAll(OperationFilter(data, "add").records, addKwargs, serialize);
    if added.Failure? then (rows + created, Failure(added.error))
    else
      var (updatedRows, updated) := UpdateAll(rows + created, OperationFilter(data, "update").records, updateKwargs);
      if updated.Failure? then (updatedRows, Failure(updated.error))
      else
        var ids := OperationFilter(data, "delete").ids;
        (Filter(updatedRows, KeepsIds(ids, deleteKwargs)),
         Success(CrudCounts(added.value, updated.value, |Filter(updatedRows, SelectsIds(ids, deleteKwargs))|)))
  }

  method PerformCrudOperations(table: Table, data: seq<Row>, serialize: Row -> Option<Row>, addKwargs: Row, deleteKwargs: Row, updateKwargs: Row)
    returns (r: Result<CrudCounts, CrudError>)
    modifies table
    ensures (table.rows, r) == CrudOperations(old(table.rows), data, serialize, addKwargs, deleteKwargs, updateKwargs)
  {
    var added := PerformCreate(table, data, addKwargs, serialize);
    if added.Failure? {
      return Failure(added.error);
    }
    var updated := PerformUpdate(table, data, updateKwargs);
    if updated.Failure? {
      return Failure(updated.error);
    }
    var deleted := PerformDelete(table, data, deleteKwargs);
    return Success(CrudCounts(added.value, updated.value, deleted));
  }

  /**
   * The order of the steps is visible: a row created by an "add" record is
   * deleted by a "delete" record of the same request that names its id, and
   * when all steps succeed the "add" count is the number of "add" records.
   */
  lemma CrudStepsInOrder(rows: seq<Row>, data: seq<Row>, serialize: Row -> Option<Row>, addKwargs: Row, deleteKwargs: Row, updateKwargs: Row)
    ensures var (final, r) := CrudOperations(rows, data, serialize, addKwargs, deleteKwargs, updateKwargs);
      && (r.Success? ==> r.value.add == |OperationFilter(data, "add").records|)
      && (r.Success? ==> forall x :: x in final ==>
            !(Get(x, "id") in OperationFilter(data, "delete").ids && Matches(x, deleteKwargs)))
      && (r.Failure? && r.error.Invalid? ==> |final| < |rows| + |OperationFilter(data, "add").records|)
  {
    var adds := OperationFilter(data, "add").records;
    CreateAllSavesValidPrefix(adds, addKwargs, serialize);
    var (created, added) := CreateAll(adds, addKwargs, serialize);
    if added.Success? {
      var (updatedRows, updated) := UpdateAll(rows + created, OperationFilter(data, "update").records, updateKwargs);
      if updated.Success? {
        DeleteRemovesExactlySelected(updatedRows, OperationFilter(data, "delete").ids, deleteKwargs);
      }
    }
  }

  // ---- `perform_list_field_update` ----

  /** `set(updated_value)`. */
  function Target(updated: seq<Value>): set<Value> {
    set x | x in updated
  }

  /** `set(filter(**query_params).values_list(field_name, flat=True))`. */
  function FieldValues(rows: seq<Row>, field: string, query: Row): set<Value> {
    set r | r in rows && Matches(r, query) :: Get(r, field)
  }

  function ToAdd(rows: seq<Row>, updated: seq<Value>, field: string, query: Row): set<Value> {
    Target(updated) - FieldValues(rows, field, query)
  }

  function ToDelete(rows: seq<Row>, updated: seq<Value>, field: string, query: Row): set<Value> {
    FieldValues(rows, field, query) - Target(updated)
  }

  /** `related_model(**{field_name: item, **query_params})`: the query parameters win a clash. */
  function NewRow(field: string, item: Value, query: Row): Row {
    map[field := item] + query
  }

  function NewRows(items: set<Value>, field: string, query: Row): set<Row> {
    set item | item in items :: NewRow(field, item, query)
  }

  /** The rows that `filter(field__in=to_delete, **query_params).delete()` leaves. */
  function KeepsValues(field: string, toDelete: set<Value>, query: Row): Row -> bool {
    r => !(Matches(r, query) && Get(r, field) in toDelete)
  }

  /** The value `perform_list_field_update` returns: `len(to_add) + len(to_delete)`. */
  function SyncCount(rows: seq<Row>, updated: seq<Value>, field: string, query: Row): nat {
    |ToAdd(rows, updated, field, query)| + |ToDelete(rows, updated, field, query)|
  }

  /**
   * The table after the sync: the rows the delete keeps, in order, followed
   * by one new row per value to add (in some order, as a set iterates).
   */
  ghost predicate Synced(oldRows: seq<Row>, updated: seq<Value>, field: string, query: Row, rows: seq<Row>) {
    var kept := Filter(oldRows, KeepsValues(field, ToDelete(oldRows, updated, field, query), query));
    var toAdd := ToAdd(oldRows, updated, field, query);
    && |rows| == |kept| + |toAdd|
    && rows[..|kept|] == kept
    && forall r :: r in rows[|kept|..] <==> r in NewRows(toAdd, field, query)
  }

  /** The delete of `perform_list_field_update`: the rows that do not hold a value to delete, in order. */
  method KeepRows(rows: seq<Row>, field: string, toDelete: set<Value>, query: Row) returns (kept: seq<Row>)
    ensures kept == Filter(rows, KeepsValues(field, toDelete, query))
    ensures forall r :: r in kept <==> r in rows && !(Matches(r, query) && Get(r, field) in toDelete)
  {
    kept := [];
    var i := 0;
    while i < |rows|
      invariant 0 <= i <= |rows|
      invariant kept == Filter(rows[..i], KeepsValues(field, toDelete, query))
    {
      assert rows[..i + 1][..i] == rows[..i];
      if !(Matches(rows[i], query) && Get(rows[i], field) in toDelete) {
        kept := kept + [rows[i]];
      }
      i := i + 1;
    }
    assert rows[..i] == rows;
  }

  /** The rows `bulk_create` inserts: one per value to add, in the order the set yields them. */
  method BuildNewRows(toAdd: set<Value>, field: string, query: Row) returns (added: seq<Row>)
    ensures |added| == |toAdd|
    ensures forall r :: r in added <==> r in NewRows(toAdd, field, query)
  {
    added := [];
    var rest := toAdd;
    while rest != {}
      invariant rest <= toAdd
      invariant |added| + |rest| == |toAdd|
      invariant forall r :: r in added <==> r in NewRows(toAdd - rest, field, query)
      decreases |rest|
    {
      var item :| item in rest;
      added := added + [NewRow(field, item, query)];
      rest := rest - {item};
    }
    assert toAdd - rest == toAdd;
  }

  /** `perform_list_field_update`: deletes the stale values' rows, inserts rows for the new values, counts both. */
  method PerformListFieldUpdate(table: Table, updated: seq<Value>, field: string, query: Row) returns (count: nat)
    modifies table
    ensures Synced(old(table.rows), updated, field, query, table.rows)
    ensures count == SyncCount(old(table.rows), updated, field, query)
  {
    var rows := table.rows;
    var newData := set x | x in updated;
    var oldData := set r | r in rows && Matches(r, query) :: Get(r, field);
    assert newData == Target(updated) && oldData == FieldValues(rows, field, query);
    var toAdd := newData - oldData;
    var toDelete := oldData - newData;
    var kept := KeepRows(rows, field, toDelete, query);
    var added := BuildNewRows(toAdd, field, query);
    table.rows := kept + added;
    assert table.rows[..|kept|] == kept && table.rows[|kept|..] == added;
    count := |toAdd| + |toDelete|;
  }

  /** A new row matches the query, and carries its item when the field is not a query parameter. */
  lemma NewRowMatches(field: string, item: Value, query: Row)
    ensures Matches(NewRow(field, item, query), query)
    ensures field !in query ==> Get(NewRow(field, item, query), field) == item
  {
  }

  /** Where the sync's rows come from: the kept old rows, then the new rows. */
  lemma SyncedRowOrigin(oldRows: seq<Row>, updated: seq<Value>, field: string, query: Row, rows: seq<Row>, r: Row)
    requires Synced(oldRows, updated, field, query, rows)
    ensures var kept := Filter(oldRows, KeepsValues(field, ToDelete(oldRows, updated, field, query), query));
      r in rows <==> r in kept || r in NewRows(ToAdd(oldRows, updated, field, query), field, query)
  {
    var kept := Filter(oldRows, KeepsValues(field, ToDelete(oldRows, updated, field, query), query));
    assert rows == rows[..|kept|] + rows[|kept|..];
  }

  /**
   * After the sync, the field's values in the rows matching the query are
   * exactly the target values (when the field is not itself a query
   * parameter), so repeating the call with the same list changes nothing and
   * returns 0.
   */
  lemma SyncReachesTarget(oldRows: seq<Row>, updated: seq<Value>, field: string, query: Row, rows: seq<Row>)
    requires Synced(oldRows, updated, field, query, rows)
    requires field !in query
    ensures FieldValues(rows, field, query) == Target(updated)
    ensures SyncCount(rows, updated, field, query) == 0
  {
    var toDelete := ToDelete(oldRows, updated, field, query);
    var toAdd := ToAdd(oldRows, updated, field, query);
    var kept := Filter(oldRows, KeepsValues(field, toDelete, query));
    forall v | v in FieldValues(rows, field, query) ensures v in Target(updated) {
      var r :| r in rows && Matches(r, query) && Get(r, field) == v;
      SyncedRowOrigin(oldRows, updated, field, query, rows, r);
      if r in kept {
        assert v in FieldValues(oldRows, field, query);
      } else {
        var item :| item in toAdd && r == NewRow(field, item, query);
      }
    }
    forall v | v in Target(updated) ensures v in FieldValues(rows, field, query) {
      if v in FieldValues(oldRows, field, query) {
        var r :| r in oldRows && Matches(r, query) && Get(r, field) == v;
        assert r in kept;
        SyncedRowOrigin(oldRows, updated, field, query, rows, r);
      } else {
        var r := NewRow(field, v, query);
        assert r in NewRows(toAdd, field, query);
        SyncedRowOrigin(oldRows, updated, field, query, rows, r);
        NewRowMatches(field, v, query);
      }
    }
    assert ToAdd(rows, updated, field, query) == {};
    assert ToDelete(rows, updated, field, query) == {};
  }

  /**
   * The sync leaves alone every row outside the query and every matching row
   * whose value is also in the target.
   */
  lemma SyncKeepsUnaffectedRows(oldRows: seq<Row>, updated: seq<Value>, field: string, query: Row, rows: seq<Row>, r: Row)
    requires Synced(oldRows, updated, field, query, rows)
    requires r in oldRows
    requires !Matches(r, query) || Get(r, field) in Target(updated)
    ensures r in rows
  {
    SyncedRowOrigin(oldRows, updated, field, query, rows, r);
  }
}
