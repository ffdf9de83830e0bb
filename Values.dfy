/** Ruby values as they flow through Mos Eisley: parsed JSON, Block Kit hashes,
    handler responses. A Ruby Hash keeps insertion order, so an object is an
    ordered sequence of (key, value) pairs; symbol and string keys are both
    represented by their names. */
module Values {

  datatype Option<+T> = None | Some(value: T)

  /** The result of a Ruby call that may raise: the value it returned, or the
      class name of the exception it raised. */
  datatype Outcome<+T> = Returned(value: T) | Raised(error: string)

  datatype Value =
    | Null
    | Bool(b: bool)
    | Num(n: int)
    | Str(s: string)
    | Sym(name: string)
    | Time(epoch: int)
    | Arr(items: seq<Value>)
    | Obj(fields: seq<(string, Value)>)

  /** Ruby truthiness: everything except nil and false. */
  predicate Truthy(v: Value) {
    !(v.Null? || v == Bool(false))
  }

  function Keys<V>(fs: seq<(string, V)>): set<string> {
    set i | 0 <= i < |fs| :: fs[i].0
  }

  /** The keys of a hash in insertion order. */
  function KeyList<V>(fs: seq<(string, V)>): (r: seq<string>)
    ensures |r| == |fs| && forall i :: 0 <= i < |fs| ==> r[i] == fs[i].0
  {
    if fs == [] then [] else [fs[0].0] + KeyList(fs[1..])
  }

  predicate DistinctKeys<V>(fs: seq<(string, V)>) {
    forall i, j :: 0 <= i < j < |fs| ==> fs[i].0 != fs[j].0
  }

  /** The position of the first pair whose key is `k`. */
  function IndexOf<V>(fs: seq<(string, V)>, k: string): (r: Option<nat>)
    ensures r.Some? ==> r.value < |fs| && fs[r.value].0 == k
    ensures r.Some? ==> forall j :: 0 <= j < r.value ==> fs[j].0 != k
    ensures r.None? <==> k !in Keys(fs)
  {
    if fs == [] then None
    else if fs[0].0 == k then Some(0)
    else
      match IndexOf(fs[1..], k)
      case None =>
        assert forall i :: 0 <= i < |fs| ==> fs[i].0 != k by {
          forall i | 0 < i < |fs| ensures fs[i].0 != k {
            assert fs[1..][i - 1] == fs[i];
          }
        }
        None
      case Some(i) =>
        assert fs[1..][i].0 == k;
        Some(i + 1)
  }

  /** `h[k]` on a hash: the value stored under key `k`, if any. */
  function Find<V>(fs: seq<(string, V)>, k: string): (r: Option<V>)
    ensures r.Some? <==> k in Keys(fs)
  {
    match IndexOf(fs, k)
    case Some(i) => Some(fs[i].1)
    case None => None
  }

  /** Key lookup on a value that is an object; `None` for a missing key or a
      value that is not an object. */
  function Get(v: Value, k: string): Option<Value> {
    if v.Obj? then Find(v.fields, k) else None
  }

  /** A value of standard JSON form: no Ruby `Time` objects at any depth. */
  predicate JsonReady(v: Value) {
    match v
    case Time(_) => false
    case Arr(items) => forall i :: 0 <= i < |items| ==> JsonReady(items[i])
    case Obj(fields) => forall i :: 0 <= i < |fields| ==> JsonReady(fields[i].1)
    case _ => true
  }

  /** Every object at every depth has distinct keys, as a Ruby Hash does. */
  predicate WellFormed(v: Value) {
    match v
    case Arr(items) => forall i :: 0 <= i < |items| ==> WellFormed(items[i])
    case Obj(fields) =>
      DistinctKeys(fields) && forall i :: 0 <= i < |fields| ==> WellFormed(fields[i].1)
    case _ => true
  }
}
