/**
 * `CoreModel`, the base of every table: a UUID primary key, creation and
 * update times and a soft-delete flag. Its class methods split validated data
 * into constructor or update arguments (the keys that are field names, popped
 * out of the caller's dict) and what is left behind.
 */
module CoreModels {
  import opened Values
  import Wrappers
  import UuidText

  /** The fields every CoreModel declares, in declaration order. */
  const CoreFields: seq<string> := ["id", "created_at", "updated_at", "is_deleted", "deleted_at"]

  /** `CoreModel.get_hidden_fields()`: every core field except the primary key, in declaration order. */
  function GetHiddenFields(): (r: seq<string>)
    ensures |r| == |CoreFields| - 1
    ensures forall i :: 0 <= i < |r| ==> r[i] == CoreFields[i + 1]
  {
    ["created_at", "updated_at", "is_deleted", "deleted_at"]
  }

  /** The entries of `data` whose keys are field names: the popped constructor arguments. */
  function FieldPart(data: Row, fields: seq<string>): Row {
    map k | k in data && k in fields :: data[k]
  }

  /** The entries of `data` whose keys are not field names: what stays in the dict. */
  function RestPart(data: Row, fields: seq<string>): Row {
    map k | k in data && k !in fields :: data[k]
  }

  /** The two parts are disjoint and together are the whole dict. */
  lemma PartitionRecombines(data: Row, fields: seq<string>)
    ensures FieldPart(data, fields).Keys !! RestPart(data, fields).Keys
    ensures FieldPart(data, fields) + RestPart(data, fields) == data
  {
  }

  /** Adding one more field name moves at most that one key from the rest to the fields part. */
  lemma PartsStep(data: Row, fields: seq<string>, f: string)
    ensures FieldPart(data, fields + [f])
         == if f in RestPart(data, fields) then FieldPart(data, fields)[f := data[f]] else FieldPart(data, fields)
    ensures RestPart(data, fields + [f]) == RestPart(data, fields) - {f}
  {
  }

  /** A model object: its field values, and the row as the database last saw it. */
  class Instance {
    const id: UuidText.Uuid
    var attrs: Row
    var stored: Row

    /** `cls(**kwargs)`: a new, unsaved object. */
    constructor (id: UuidText.Uuid, kwargs: Row)
      ensures this.id == id && attrs == kwargs && stored == map[]
    {
      this.id := id;
      attrs := kwargs;
      stored := map[];
    }

    method Save()
      modifies this`stored
      ensures stored == attrs
    {
      stored := attrs;
    }

    /**
     * `update_from_validated_data`: every field name present in the dict is
     * popped and set on the object, fields absent from the dict keep their
     * value, and the object is saved.
     */
    method UpdateFromValidatedData(fields: seq<string>, data: Dict)
      modifies this`attrs, this`stored, data
      ensures attrs == old(attrs) + FieldPart(old(data.items), fields)
      ensures data.items == RestPart(old(data.items), fields)
      ensures stored == attrs
    {
      ghost var original := data.items;
      ghost var start := attrs;
      var i := 0;
      while i < |fields|
        invariant 0 <= i <= |fields|
        invariant attrs == start + FieldPart(original, fields[..i])
        invariant data.items == RestPart(original, fields[..i])
      {
        var f := fields[i];
        PartsStep(original, fields[..i], f);
        assert fields[..i + 1] == fields[..i] + [f];
        if f in data.items {
          var v := data.Pop(f);
          attrs := attrs[f := v];
        }
        i := i + 1;
      }
      assert fields[..i] == fields;
      Save();
    }

    /** `__str__`: the text form of the primary key. */
    function Str(): (s: string)
      reads this
      ensures UuidText.ParseUuid(s) == Wrappers.Some(id as nat)
    {
      UuidText.ParseUuidString(id);
      UuidText.UuidString(id)
    }
  }

  /**
   * `from_validated_data`: pops every field name present in the dict and
   * builds an unsaved object from exactly those entries; the dict keeps its
   * other entries with their values.
   */
  method FromValidatedData(id: UuidText.Uuid, fields: seq<string>, data: Dict) returns (obj: Instance)
    modifies data
    ensures fresh(obj) && obj.id == id && obj.stored == map[]
    ensures obj.attrs == FieldPart(old(data.items), fields)
    ensures data.items == RestPart(old(data.items), fields)
  {
    var kwargs := PopFields(fields, data);
    obj := new Instance(id, kwargs);
  }

  /** The dict comprehension that pops the field names out of `data`. */
  method PopFields(fields: seq<string>, data: Dict) returns (kwargs: Row)
    modifies data
    ensures kwargs == FieldPart(old(data.items), fields)
    ensures data.items == RestPart(old(data.items), fields)
  {
    ghost var original := data.items;
    kwargs := map[];
    var i := 0;
    while i < |fields|
      invariant 0 <= i <= |fields|
      invariant kwargs == FieldPart(original, fields[..i])
      invariant data.items == RestPart(original, fields[..i])
    {
      var f := fields[i];
      PartsStep(original, fields[..i], f);
      assert fields[..i + 1] == fields[..i] + [f];
      if f in data.items {
        var v := data.Pop(f);
        kwargs := kwargs[f := v];
      }
      i := i + 1;
    }
    assert fields[..i] == fields;
  }
}
