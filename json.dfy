/** The JSON values that the API responses decode to, and the JavaScript
    property reads the page performs on them. An object is its list of
    entries in `Object.entries` order. */
module Json {
  import opened Wrappers
  import opened Numbers

  datatype Value =
    | Null
    | Bool(b: bool)
    | Num(n: real)
    | Str(s: string)
    | Arr(items: seq<Value>)
    | Obj(entries: seq<(string, Value)>)

  /** The keys of an entry list. */
  function Keys(entries: seq<(string, Value)>): set<string> {
    set i | 0 <= i < |entries| :: entries[i].0
  }

  /** `obj[k]` for an own property `k`: the value of the entry with that
      key, or `None` (`undefined`) when there is none. */
  function Lookup(entries: seq<(string, Value)>, k: string): (r: Option<Value>)
    ensures r.Some? <==> k in Keys(entries)
    ensures r.Some? ==> (k, r.value) in entries
  {
    if entries == [] then None
    else if entries[0].0 == k then Some(entries[0].1)
    else
      assert Keys(entries) == {entries[0].0} + Keys(entries[1..]) by {
        assert forall i :: 1 <= i < |entries| ==> entries[i] == entries[1..][i - 1];
      }
      Lookup(entries[1..], k)
  }

  /** `v?.[k]`: an own property of an object; anything else has none. */
  function Prop(v: Value, k: string): (r: Option<Value>)
    ensures r.Some? <==> v.Obj? && k in Keys(v.entries)
  {
    if v.Obj? then Lookup(v.entries, k) else None
  }

  /** A property read that `??` would keep: neither `undefined` nor `null`. */
  predicate Present(p: Option<Value>) {
    p.Some? && p.value != Null
  }

  /** `typeof v === 'object'`, which holds of `null` and of arrays too. */
  predicate IsObjectLike(v: Value) {
    v.Null? || v.Arr? || v.Obj?
  }

  /** `Object.entries(v)` for an object or an array: an array's entries are
      keyed by the decimal form of each index. */
  function Entries(v: Value): (r: seq<(string, Value)>)
    ensures v.Obj? ==> r == v.entries
    ensures v.Arr? ==> |r| == |v.items|
    ensures v.Arr? ==> forall i :: 0 <= i < |r| ==> r[i] == (NatToString(i), v.items[i])
    ensures !v.Obj? && !v.Arr? ==> r == []
  {
    match v
    case Obj(es) => es
    case Arr(items) => seq(|items|, i requires 0 <= i < |items| => (NatToString(i), items[i]))
    case _ => []
  }
}
