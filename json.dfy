/**
 * Decoded JSON values as Python holds them after json.loads: None, booleans, integers,
 * strings, lists and dicts. A dict keeps its entries as (key, value) pairs in order.
 */
module Json {
  import opened Text

  datatype Json =
    | JNull
    | JBool(b: bool)
    | JInt(i: int)
    | JStr(s: string)
    | JArr(items: seq<Json>)
    | JObj(fields: seq<(string, Json)>)

  /** Python truthiness: None, False, 0 and empty strings, lists and dicts are false. */
  predicate Truthy(j: Json) {
    match j
    case JNull => false
    case JBool(b) => b
    case JInt(i) => i != 0
    case JStr(s) => |s| > 0
    case JArr(items) => |items| > 0
    case JObj(fields) => |fields| > 0
  }

  /** `key in d` for a dict's entries. */
  predicate HasKey(fields: seq<(string, Json)>, key: string) {
    exists i :: 0 <= i < |fields| && fields[i].0 == key
  }

  /**
   * d.get(key, default). json.loads keeps the last of repeated keys, so the last entry
   * with the key wins.
   */
  function Get(fields: seq<(string, Json)>, key: string, default: Json): (r: Json)
    ensures !HasKey(fields, key) ==> r == default
    ensures HasKey(fields, key) ==> exists i :: 0 <= i < |fields| && fields[i] == (key, r)
  {
    if |fields| == 0 then default
    else if fields[|fields| - 1].0 == key then fields[|fields| - 1].1
    else
      var r := Get(fields[..|fields| - 1], key, default);
      assert HasKey(fields[..|fields| - 1], key) <==> HasKey(fields, key) by {
        if HasKey(fields, key) {
          var i :| 0 <= i < |fields| && fields[i].0 == key;
          assert fields[..|fields| - 1][i].0 == key;
        }
        if HasKey(fields[..|fields| - 1], key) {
          var i :| 0 <= i < |fields| - 1 && fields[..|fields| - 1][i].0 == key;
          assert fields[i].0 == key;
        }
      }
      if HasKey(fields, key) then
        var i :| 0 <= i < |fields| - 1 && fields[..|fields| - 1][i] == (key, r);
        assert fields[i] == (key, r);
        r
      else r
  }

  /** The entry that Get returns is the last one with the key. */
  lemma {:induction false} GetLast(fields: seq<(string, Json)>, key: string, default: Json, i: nat)
    requires i < |fields| && fields[i].0 == key
    requires forall k :: i < k < |fields| ==> fields[k].0 != key
    ensures Get(fields, key, default) == fields[i].1
    decreases |fields|
  {
    if i < |fields| - 1 {
      var front := fields[..|fields| - 1];
      assert front[i] == fields[i];
      forall k | i < k < |front| ensures front[k].0 != key {
        assert front[k] == fields[k];
      }
      GetLast(front, key, default, i);
    }
  }

  /** repr() of a value (strings in single quotes, without escaping). */
  function Repr(j: Json): string
    decreases j
  {
    match j
    case JNull => "None"
    case JBool(b) => if b then "True" else "False"
    case JInt(i) => IntToString(i)
    case JStr(s) => "'" + s + "'"
    case JArr(items) => "[" + Join(", ", seq(|items|, k requires 0 <= k < |items| => Repr(items[k]))) + "]"
    case JObj(fields) =>
      "{" + Join(", ", seq(|fields|, k requires 0 <= k < |fields| => "'" + fields[k].0 + "': " + Repr(fields[k].1))) + "}"
  }

  /** str() of a value, which is also what an f-string inserts: a string is itself. */
  function Str(j: Json): (r: string)
    ensures j.JStr? ==> r == j.s
    ensures !j.JStr? ==> r == Repr(j)
  {
    if j.JStr? then j.s else Repr(j)
  }

  /** What an f-string inserts for each kind of value. */
  lemma StrOfValues(j: Json)
    ensures j.JStr? ==> Str(j) == j.s
    ensures j == JNull ==> Str(j) == "None"
    ensures j.JBool? ==> Str(j) == if j.b then "True" else "False"
    ensures j.JInt? ==> Str(j) == IntToString(j.i)
    ensures j.JArr? ==> Str(j)[0] == '[' && Str(j)[|Str(j)| - 1] == ']'
    ensures j.JObj? ==> Str(j)[0] == '{' && Str(j)[|Str(j)| - 1] == '}'
  {
    if j.JArr? || j.JObj? {
      var r := Repr(j);
      assert r == Str(j);
    }
  }
}
