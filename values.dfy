/**
 * Python values as they flow through validated data, request data and table
 * rows, with Python's truthiness, and the dictionaries that the code changes
 * in place.
 */
module Values {

  /**
   * A value stored in a dict. `VUser(email)` is a reference to the user
   * object whose (unique) email is `email`, as `data["user"] = user` stores it.
   */
  datatype Value = VNone | VBool(b: bool) | VInt(i: int) | VStr(s: string) | VUser(email: string)

  /** Python truthiness (`if v:`). */
  predicate Truthy(v: Value) {
    match v
    case VNone => false
    case VBool(b) => b
    case VInt(i) => i != 0
    case VStr(s) => s != ""
    case VUser(_) => true
  }

  /** A row of a table or a dict of keyword arguments. */
  type Row = map<string, Value>

  /** `d.get(k)`: the value under `k`, or None when `k` is absent. */
  function Get(d: Row, k: string): Value {
    if k in d then d[k] else VNone
  }

  /** The `KeyError` that `d.pop(k)` or `d[k]` raises for a missing key. */
  datatype KeyError = KeyError(key: string)

  /** A Python dict that the code changes in place. */
  class Dict {
    var items: Row

    constructor (items: Row)
      ensures this.items == items
    {
      this.items := items;
    }

    /** `d.pop(k)` on a key the caller has checked to be present. */
    method Pop(k: string) returns (v: Value)
      requires k in items
      modifies this
      ensures v == old(items)[k]
      ensures items == old(items) - {k}
    {
      v := items[k];
      items := items - {k};
    }

    /** `d[k] = v`. */
    method Put(k: string, v: Value)
      modifies this
      ensures items == old(items)[k := v]
    {
      items := items[k := v];
    }
  }
}
