/** Decoded JSON values, as `response.json()` hands them to the code, and the Python operations applied to them. */
module Json {
  import opened Wrappers

  datatype Json =
    | Null
    | Bool(b: bool)
    | Number(n: int)
    | Str(s: string)
    | Array(items: seq<Json>)
    | Object(members: seq<(string, Json)>)

  /** Python truthiness: `None`, `False`, `0`, `""`, `[]` and `{}` are false. */
  predicate Truthy(j: Json)
  {
    match j
    case Null => false
    case Bool(b) => b
    case Number(n) => n != 0
    case Str(s) => s != []
    case Array(items) => items != []
    case Object(members) => members != []
  }

  /** The value `json.loads` keeps for `key`: that of its last occurrence. */
  function Lookup(members: seq<(string, Json)>, key: string): (r: Option<Json>)
    ensures r.Some? <==> exists k :: 0 <= k < |members| && members[k].0 == key
  {
    if members == [] then None
    else if members[|members| - 1].0 == key then Some(members[|members| - 1].1)
    else Lookup(members[..|members| - 1], key)
  }

  /**
   * `d.get(key, default)`: `None` when `j` is not a dict, which in Python raises
   * `AttributeError`.
   */
  function Get(j: Json, key: string, default: Json): (r: Option<Json>)
    ensures r.Some? <==> j.Object?
  {
    match j
    case Object(members) =>
      (match Lookup(members, key)
       case Some(v) => Some(v)
       case None => Some(default))
    case _ => None
  }

  /**
   * The keys a dict built by `json.loads` holds, in its iteration order: a key
   * repeated in the text is stored once, at the place of its first occurrence.
   */
  function KeysOf(members: seq<(string, Json)>): (r: seq<Json>)
    ensures |r| <= |members|
    ensures forall k :: 0 <= k < |r| ==> r[k].Str? && Lookup(members, r[k].s).Some?
    ensures forall key :: Lookup(members, key).Some? ==> Str(key) in r
    ensures forall i, j :: 0 <= i < j < |r| ==> r[i] != r[j]
  {
    if members == [] then []
    else
      var keys := KeysOf(members[..|members| - 1]);
      var key := Str(members[|members| - 1].0);
      if key in keys then keys else keys + [key]
  }

  predicate DistinctKeys(members: seq<(string, Json)>)
  {
    forall i, j :: 0 <= i < j < |members| ==> members[i].0 != members[j].0
  }

  /** Without repeated keys, iterating a dict visits its keys in the order they were written. */
  lemma {:induction false} KeysOfDistinct(members: seq<(string, Json)>)
    requires DistinctKeys(members)
    ensures |KeysOf(members)| == |members|
    ensures forall k :: 0 <= k < |members| ==> KeysOf(members)[k] == Str(members[k].0)
  {
    if members != [] {
      var init := members[..|members| - 1];
      KeysOfDistinct(init);
      assert Str(members[|members| - 1].0) !in KeysOf(init);
    }
  }

  /** A key written twice is visited once, at its first place. */
  lemma {:induction false} KeysOfRepeated(members: seq<(string, Json)>, key: string, v: Json)
    requires Lookup(members, key).Some?
    ensures KeysOf(members + [(key, v)]) == KeysOf(members)
  {
    assert (members + [(key, v)])[..|members|] == members;
  }

  function CharStrs(s: string): (r: seq<Json>)
    ensures |r| == |s| && forall k :: 0 <= k < |r| ==> r[k] == Str([s[k]])
  {
    if s == [] then [] else [Str([s[0]])] + CharStrs(s[1..])
  }

  /**
   * What `for x in j` visits: a list's items, a dict's keys, a string's
   * characters. `None` when `j` is not iterable, which in Python raises `TypeError`.
   */
  function Iterate(j: Json): (r: Option<seq<Json>>)
    ensures r.Some? <==> j.Array? || j.Object? || j.Str?
    ensures j.Array? ==> r == Some(j.items)
    ensures !j.Array? && r.Some? ==> forall k :: 0 <= k < |r.value| ==> r.value[k].Str?
  {
    match j
    case Array(items) => Some(items)
    case Object(members) => Some(KeysOf(members))
    case Str(s) => Some(CharStrs(s))
    case _ => None
  }
}
