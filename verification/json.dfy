/** Parsed JSON as the patch files and the configuration hold it: objects keep their keys in
    document order, as Python's `dict` does. */
module JsonData {
  import opened Wrappers

  datatype Json =
    | Str(s: string)
    | Num(n: int)
    | Bool(b: bool)
    | Null
    | Arr(items: seq<Json>)
    | Obj(members: seq<(string, Json)>)

  /** `dict.get(key, default)`: the value of the first member with that key. */
  function Get(members: seq<(string, Json)>, key: string, default: Json): (v: Json)
    ensures (forall i :: 0 <= i < |members| ==> members[i].0 != key) ==> v == default
    ensures v == default || exists i :: 0 <= i < |members| && members[i] == (key, v)
  {
    if members == [] then default
    else if members[0].0 == key then members[0].1
    else Get(members[1..], key, default)
  }

  /** `d[key]`: the value of the first member with that key; none is a KeyError. */
  function Find(members: seq<(string, Json)>, key: string): (r: Option<Json>)
    ensures r.None? <==> forall i :: 0 <= i < |members| ==> members[i].0 != key
    ensures forall default :: Get(members, key, default) == if r.Some? then r.value else default
  {
    if members == [] then None
    else if members[0].0 == key then Some(members[0].1)
    else Find(members[1..], key)
  }
}
