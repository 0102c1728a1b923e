/** JSON values as `json.loads` returns them.

A document's top-level object keeps the order of its keys (the commands iterate over
it and write it back); objects nested inside it are maps, since the commands only look
them up and compare them, and Python's `==` on dicts ignores key order.
 */
module Json {
  import opened Wrappers
  import Dicts

  datatype Value =
    | Null
    | Bool(b: bool)
    | Number(n: int)
    | Str(s: string)
    | Array(items: seq<Value>)
    | Object(members: map<string, Value>)

  /** A top-level JSON object, in file order. */
  type Document = Dicts.Dict<string, Value>

  /** Whether the value can be a dict key or a set element: lists and dicts cannot. */
  predicate Hashable(v: Value) {
    !v.Array? && !v.Object?
  }

  /** `o.get(k)` on a nested object. */
  function Lookup(m: map<string, Value>, k: string): (r: Option<Value>)
    ensures r.Some? <==> k in m
    ensures r.Some? ==> r.value == m[k]
  {
    if k in m then Some(m[k]) else None
  }

  /** Python's name for the type of a value. */
  function TypeName(v: Value): string {
    match v
    case Null => "NoneType"
    case Bool(_) => "bool"
    case Number(_) => "int"
    case Str(_) => "str"
    case Array(_) => "list"
    case Object(_) => "dict"
  }

  /** The `TypeError` of `o[k]` with a string `k` on a value that is not a dict. */
  function SubscriptError(o: Value): Error {
    match o
    case Str(_) => TypeError("string indices must be integers")
    case Array(_) => TypeError("list indices must be integers or slices, not str")
    case _ => TypeError("'" + TypeName(o) + "' object is not subscriptable")
  }

  /** `o[k]` for any value `o`: a `KeyError` for a missing key of an object, a
      `TypeError` for anything that is not an object. */
  function Subscript(o: Value, k: string): (r: Result<Value>)
    ensures r.Success? <==> o.Object? && k in o.members
    ensures r.Success? ==> r.value == o.members[k]
    ensures o.Object? && k !in o.members ==> r == Failure(KeyError(k))
    ensures !o.Object? ==> r == Failure(SubscriptError(o))
  {
    if !o.Object? then Failure(SubscriptError(o))
    else if k in o.members then Success(o.members[k])
    else Failure(KeyError(k))
  }

  /** `v == s` for a Python optional string `s`: JSON `null` is `None`. */
  predicate EqualsPy(v: Option<Value>, s: Option<string>) {
    match s
    case None => v.None? || v == Some(Null)
    case Some(x) => v == Some(Str(x))
  }

  /** A list of strings as a JSON array. */
  function Strs(xs: seq<string>): (r: Value)
    ensures r.Array? && |r.items| == |xs|
    ensures forall i :: 0 <= i < |xs| ==> r.items[i] == Str(xs[i])
  {
    Array(seq(|xs|, i requires 0 <= i < |xs| => Str(xs[i])))
  }
}
