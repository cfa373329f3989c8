/**
 * The JSON-shaped values the request validators and the application
 * parameter loaders handle, tagged with the Python type they have at run
 * time, and the few built-in behaviours of those values the code relies
 * on: truthiness, `== 1`, hashability and `dict.get`.
 */
module PyValue {
  import opened Wrappers

  /**
   * A Python value. A dict keeps its entries in insertion order; the keys
   * of a dict are distinct, as json.load builds them. A datetime and a UUID
   * carry their text form.
   */
  datatype Value =
    | VNone
    | VBool(b: bool)
    | VInt(i: int)
    | VFloat(r: real)
    | VStr(s: string)
    | VList(items: seq<Value>)
    | VDict(entries: seq<(string, Value)>)
    | VDatetime(stamp: string)
    | VUuid(text: string)

  /** bool(v): false for None, False, zero, and empty strings and containers. */
  predicate Truthy(v: Value)
  {
    match v
    case VNone => false
    case VBool(b) => b
    case VInt(i) => i != 0
    case VFloat(r) => r != 0.0
    case VStr(s) => s != ""
    case VList(items) => items != []
    case VDict(entries) => entries != []
    case VDatetime(_) => true
    case VUuid(_) => true
  }

  /** bool(v) for a field typed `str | None`. */
  predicate TruthyText(v: Option<string>)
  {
    v.Some? && v.value != ""
  }

  /** v == 1: True == 1 and 1.0 == 1 hold in Python as well. */
  predicate EqualsOne(v: Value)
  {
    v == VInt(1) || v == VBool(true) || v == VFloat(1.0)
  }

  /** Lists and dicts cannot be looked up in a dict: hashing them raises TypeError. */
  predicate Hashable(v: Value)
  {
    !v.VList? && !v.VDict?
  }

  /** The keys of a dict, in insertion order. */
  function KeysOf(entries: seq<(string, Value)>): seq<string>
  {
    if entries == [] then [] else [entries[0].0] + KeysOf(entries[1..])
  }

  /** The value stored under k, if any. */
  function DictLookup(entries: seq<(string, Value)>, k: string): (r: Option<Value>)
    ensures r.None? <==> k !in KeysOf(entries)
    ensures r.Some? ==> (k, r.value) in entries
  {
    if entries == [] then None
    else if entries[0].0 == k then Some(entries[0].1)
    else DictLookup(entries[1..], k)
  }

  /** d.get(k): None both for a missing key and for a key holding None. */
  function DictGet(entries: seq<(string, Value)>, k: string): (r: Value)
    ensures r != VNone ==> k in KeysOf(entries)
  {
    match DictLookup(entries, k)
    case None => VNone
    case Some(v) => v
  }

  /** d.get(k, default): the default applies only when the key is absent. */
  function DictGetOr(entries: seq<(string, Value)>, k: string, default: Value): (r: Value)
    ensures k !in KeysOf(entries) ==> r == default
    ensures k in KeysOf(entries) ==> r == DictGet(entries, k)
  {
    match DictLookup(entries, k)
    case None => default
    case Some(v) => v
  }

  /** The entries of a dict other than the one under k, in order. */
  function Without(entries: seq<(string, Value)>, k: string): (r: seq<(string, Value)>)
    ensures k !in KeysOf(r)
    ensures forall x :: x != k ==> DictLookup(r, x) == DictLookup(entries, x)
  {
    if entries == [] then []
    else if entries[0].0 == k then Without(entries[1..], k)
    else [entries[0]] + Without(entries[1..], k)
  }
}
