/** JSON-like JavaScript values: the data the utilities, validators and parsers of
    the system take apart. Objects keep their own enumerable properties in
    insertion order, which is the order `Object.entries` visits them in. */
module Json {
  import opened Wrappers
  import Text

  /** A JavaScript value. Numbers are integers: fractions, NaN and the infinities
      are not part of the model. */
  datatype JsValue =
    | Undefined
    | Null
    | Bool(b: bool)
    | Num(n: int)
    | Str(s: string)
    | Arr(items: seq<JsValue>)
    | Obj(entries: seq<(string, JsValue)>)

  /** The property names of an object, in order. */
  function KeysOf(entries: seq<(string, JsValue)>): (keys: seq<string>)
    ensures |keys| == |entries|
    ensures forall i :: 0 <= i < |entries| ==> keys[i] == entries[i].0
  {
    seq(|entries|, i requires 0 <= i < |entries| => entries[i].0)
  }

  /** `key in object`, for an object's own properties. */
  predicate HasKey(entries: seq<(string, JsValue)>, key: string) {
    exists i :: 0 <= i < |entries| && entries[i].0 == key
  }

  /** The position of `key` among the properties (the first one, should a list of
      entries repeat a name). */
  function KeyIndex(entries: seq<(string, JsValue)>, key: string): (i: nat)
    requires HasKey(entries, key)
    ensures i < |entries| && entries[i].0 == key
    ensures forall j :: 0 <= j < i ==> entries[j].0 != key
  {
    if entries[0].0 == key then 0
    else
      assert HasKey(entries[1..], key) by {
        var j :| 0 <= j < |entries| && entries[j].0 == key;
        assert entries[1..][j - 1].0 == key;
      }
      1 + KeyIndex(entries[1..], key)
  }

  /** `object[key]` for a property that is present. */
  function Get(entries: seq<(string, JsValue)>, key: string): JsValue
    requires HasKey(entries, key)
  {
    entries[KeyIndex(entries, key)].1
  }

  /** `object[key]` on an object: the value of the property, or `undefined`. */
  function Property(entries: seq<(string, JsValue)>, key: string): JsValue {
    if HasKey(entries, key) then Get(entries, key) else Undefined
  }

  /** A real JavaScript object never repeats a property name. */
  predicate DistinctKeys(entries: seq<(string, JsValue)>) {
    forall i, j :: 0 <= i < j < |entries| ==> entries[i].0 != entries[j].0
  }

  /** Every object inside `v`, at any depth, has distinct property names. */
  predicate WellFormed(v: JsValue) {
    match v
    case Arr(items) => forall i :: 0 <= i < |items| ==> WellFormed(items[i])
    case Obj(entries) =>
      DistinctKeys(entries) && forall i :: 0 <= i < |entries| ==> WellFormed(entries[i].1)
    case _ => true
  }

  /** The values JavaScript treats as false in a condition (NaN is not modelled). */
  predicate IsFalsy(v: JsValue) {
    v == Undefined || v == Null || v == Bool(false) || v == Num(0) || v == Str("")
  }

  /** `null ?? x` and `undefined ?? x` give `x`. */
  predicate IsNullish(v: JsValue) {
    v == Undefined || v == Null
  }

  /** `String(v)`, which is also what a template literal `${v}` produces: arrays are
      joined with commas, with `null` and `undefined` elements written as nothing,
      and a plain object is written as `[object Object]`. */
  function ToJsString(v: JsValue): string {
    match v
    case Undefined => "undefined"
    case Null => "null"
    case Bool(b) => if b then "true" else "false"
    case Num(n) => if n < 0 then "-" + Text.NatToDecimal(-n) else Text.NatToDecimal(n)
    case Str(s) => s
    case Arr(items) =>
      Text.Join(seq(|items|, i requires 0 <= i < |items| =>
                      if IsNullish(items[i]) then "" else ToJsString(items[i])), ",")
    case Obj(_) => "[object Object]"
  }
}
