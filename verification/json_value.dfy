/** Parsed JSON documents, as `json.load` returns them. */
module JsonValue {
  import opened Wrappers

  /** A JSON value; objects are key maps (floats are not modelled). */
  datatype Json =
    | JNull
    | JBool(b: bool)
    | JNum(n: int)
    | JStr(s: string)
    | JArr(items: seq<Json>)
    | JObj(fields: map<string, Json>)

  /** A list of strings, when every item is a JSON string. */
  function Strings(items: seq<Json>): (r: Option<seq<string>>)
    ensures r.Some? <==> forall i :: 0 <= i < |items| ==> items[i].JStr?
    ensures r.Some? ==>
      |r.value| == |items| && forall i :: 0 <= i < |items| ==> r.value[i] == items[i].s
  {
    if |items| == 0 then Some([])
    else if !items[0].JStr? then None
    else
      match Strings(items[1..])
      case None => None
      case Some(rest) => Some([items[0].s] + rest)
  }

  /** The JSON array of the given strings. */
  function FromStrings(ss: seq<string>): (r: seq<Json>)
    ensures |r| == |ss| && forall i :: 0 <= i < |ss| ==> r[i] == JStr(ss[i])
  {
    seq(|ss|, i requires 0 <= i < |ss| => JStr(ss[i]))
  }

  /** A string-to-string map, when every value of the object is a JSON string. */
  function StringMap(m: map<string, Json>): (r: Option<map<string, string>>)
    ensures r.Some? <==> forall k :: k in m ==> m[k].JStr?
    ensures r.Some? ==> r.value.Keys == m.Keys && forall k :: k in m ==> r.value[k] == m[k].s
  {
    if forall k :: k in m ==> m[k].JStr? then Some(map k | k in m :: m[k].s) else None
  }

  /** The JSON object of a string-to-string map. */
  function FromStringMap(m: map<string, string>): (r: map<string, Json>)
    ensures r.Keys == m.Keys && forall k :: k in m ==> r[k] == JStr(m[k])
  {
    map k | k in m :: JStr(m[k])
  }

  /** Decoding the encoding of a string list gives the list back. */
  lemma StringsRoundTrip(ss: seq<string>)
    ensures Strings(FromStrings(ss)) == Some(ss)
  {
    var r := Strings(FromStrings(ss));
    assert r.Some?;
    assert r.value == ss;
  }

  /** Decoding the encoding of a string map gives the map back. */
  lemma StringMapRoundTrip(m: map<string, string>)
    ensures StringMap(FromStringMap(m)) == Some(m)
  {
    var r := StringMap(FromStringMap(m));
    assert r.Some?;
    assert r.value == m;
  }
}
