/** JSON documents as `json.load` returns them and `json.dump` writes them
    (the text encoding itself is not modelled). */
module Json {
  import opened Options

  datatype Value =
    | JNull
    | JBool(b: bool)
    | JNum(n: int)
    | JStr(str: string)
    | JArr(items: seq<Value>)
    | JObj(members: seq<(string, Value)>)

  /** `d.get(key)` on a loaded object: when a key is repeated, the last one wins. */
  function Get(members: seq<(string, Value)>, key: string): (r: Option<Value>)
    ensures r.Some? ==> (key, r.value) in members
    ensures r.Some? ==> exists i :: LastWith(members, key, i) && members[i].1 == r.value
    ensures r.None? <==> forall i :: 0 <= i < |members| ==> members[i].0 != key
  {
    if members == [] then None
    else
      var n := |members| - 1;
      if members[n].0 == key then
        assert LastWith(members, key, n);
        Some(members[n].1)
      else
        var r := Get(members[..n], key);
        LastWithExtends(members, members[..n], key, r);
        r
  }

  /** Member `i` holds `key` and no later member does. */
  predicate LastWith(members: seq<(string, Value)>, key: string, i: int) {
    0 <= i < |members| && members[i].0 == key && forall j :: i < j < |members| ==> members[j].0 != key
  }

  lemma LastWithExtends(members: seq<(string, Value)>, p: seq<(string, Value)>, key: string, r: Option<Value>)
    requires members != [] && p == members[..|members| - 1] && members[|members| - 1].0 != key
    requires r.Some? ==> exists i :: LastWith(p, key, i) && p[i].1 == r.value
    ensures r.Some? ==> exists i :: LastWith(members, key, i) && members[i].1 == r.value
  {
    if r.Some? {
      var i :| LastWith(p, key, i) && p[i].1 == r.value;
      assert members[i] == p[i];
      forall j | i < j < |members| ensures members[j].0 != key {
        if j < |p| {
          assert members[j] == p[j];
        }
      }
      assert LastWith(members, key, i);
    }
  }

  /** `d.get(key, default)` */
  function GetOr(members: seq<(string, Value)>, key: string, default: Value): (v: Value)
    ensures (forall i :: 0 <= i < |members| ==> members[i].0 != key) ==> v == default
    ensures (exists i :: 0 <= i < |members| && members[i].0 == key) ==>
              exists i :: LastWith(members, key, i) && members[i].1 == v
  {
    match Get(members, key)
    case Some(v) => v
    case None => default
  }

  /** Python truthiness of a loaded value (`bool(v)`). */
  predicate Truthy(v: Value)
    ensures !Truthy(v) <==> v in {JNull, JBool(false), JNum(0), JStr(""), JArr([]), JObj([])}
  {
    match v
    case JNull => false
    case JBool(b) => b
    case JNum(n) => n != 0
    case JStr(s) => s != ""
    case JArr(items) => items != []
    case JObj(members) => members != []
  }

  /** A list of strings as JSON. */
  function StringArray(xs: seq<string>): (v: Value)
    ensures v.JArr? && |v.items| == |xs|
    ensures forall i :: 0 <= i < |xs| ==> v.items[i] == JStr(xs[i])
  {
    JArr(seq(|xs|, i requires 0 <= i < |xs| => JStr(xs[i])))
  }

  /** Reading a list of strings back from JSON. */
  function AsStrings(v: Value): Option<seq<string>> {
    if v.JArr? && forall i :: 0 <= i < |v.items| ==> v.items[i].JStr? then
      Some(seq(|v.items|, i requires 0 <= i < |v.items| && v.items[i].JStr? => v.items[i].str))
    else None
  }

  lemma AsStringsOfStringArray(xs: seq<string>)
    ensures AsStrings(StringArray(xs)) == Some(xs)
  {
    var v := StringArray(xs);
    var back := seq(|v.items|, i requires 0 <= i < |v.items| && v.items[i].JStr? => v.items[i].str);
    assert back == xs;
  }
}
