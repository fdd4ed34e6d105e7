/**
 * The Python value that `json.loads` returns, and the membership test
 * `key in value` that the score parser applies to it.
 */
module JsonValue {
  import opened Strings

  /** A decoded JSON document as Python holds it. An object is a `dict`, so a
      repeated key keeps its last value; a number is an `int` or a `float`
      (the float's digits are kept as text, its value is never inspected). */
  datatype Json =
    | JNull
    | JBool(b: bool)
    | JInt(i: int)
    | JFloat(literal: string)
    | JString(s: string)
    | JArray(items: seq<Json>)
    | JObject(members: map<string, Json>)

  /** The outcome of `key in value`: a truth value, or the `TypeError` that
      Python raises for a value that is not a container. */
  datatype Membership = Member(found: bool) | NotIterable(typeName: string)

  /** Python's `in`: key of a dict, element of a list (only an equal string
      matches), substring of a str; `None`, `bool`, `int` and `float` raise. */
  function In(key: string, v: Json): (r: Membership)
    ensures r.NotIterable? <==> !(v.JObject? || v.JArray? || v.JString?)
    ensures v.JObject? ==> r == Member(key in v.members)
    ensures v.JArray? ==> r == Member(JString(key) in v.items)
    ensures v.JString? ==> (r == Member(true) <==> exists i :: OccursAt(v.s, key, i))
    ensures v.JNull? ==> r == NotIterable("NoneType")
    ensures v.JBool? ==> r == NotIterable("bool")
    ensures v.JInt? ==> r == NotIterable("int")
    ensures v.JFloat? ==> r == NotIterable("float")
  {
    match v
    case JObject(m) => Member(key in m)
    case JArray(items) => Member(JString(key) in items)
    case JString(s) => ContainsIff(s, key); Member(Contains(s, key))
    case JNull => NotIterable("NoneType")
    case JBool(_) => NotIterable("bool")
    case JInt(_) => NotIterable("int")
    case JFloat(_) => NotIterable("float")
  }

  /** The text CPython gives the `TypeError` raised by `key in v` for a value
      that is not a container. */
  function NotIterableMessage(typeName: string): (message: string)
    ensures |message| == |TypeErrorLead| + |typeName| + |TypeErrorTail|
    ensures message[..|TypeErrorLead|] == TypeErrorLead
    ensures message[|TypeErrorLead|..|TypeErrorLead| + |typeName|] == typeName
    ensures message[|TypeErrorLead| + |typeName|..] == TypeErrorTail
  {
    TypeErrorLead + typeName + TypeErrorTail
  }

  const TypeErrorLead: string := "argument of type '"
  const TypeErrorTail: string := "' is not iterable"

  /** The message names the type: different types give different texts. */
  lemma NotIterableMessageNamesType(t1: string, t2: string)
    requires NotIterableMessage(t1) == NotIterableMessage(t2)
    ensures t1 == t2
  {
    var m := NotIterableMessage(t1);
    assert |t1| == |t2|;
    assert t1 == m[|TypeErrorLead|..|TypeErrorLead| + |t1|];
  }

  /** What `all(key in v for key in keys)` gives: every key present, some key
      missing, or the `TypeError` of the first test that raises. */
  datatype KeyCheck = AllPresent | SomeMissing | KeyTypeError(typeName: string)

  /** `all(...)` over `keys`, in order, stopping at the first key that is
      absent or whose test raises. */
  function CheckKeys(keys: seq<string>, v: Json): (r: KeyCheck)
    ensures r == AllPresent <==> forall i :: 0 <= i < |keys| ==> In(keys[i], v) == Member(true)
    ensures r.KeyTypeError? <==> |keys| > 0 && In(keys[0], v).NotIterable?
    ensures r.KeyTypeError? ==> In(keys[0], v) == NotIterable(r.typeName)
    decreases |keys|
  {
    if keys == [] then AllPresent
    else match In(keys[0], v)
      case NotIterable(t) => KeyTypeError(t)
      case Member(false) => SomeMissing
      case Member(true) =>
        var rest := CheckKeys(keys[1..], v);
        assert forall i :: 1 <= i < |keys| ==> keys[i] == keys[1..][i - 1];
        rest
  }

  /** For a dict, the check passes exactly when every key is a member of it. */
  lemma CheckKeysObject(keys: seq<string>, m: map<string, Json>)
    ensures CheckKeys(keys, JObject(m)) == AllPresent <==> forall i :: 0 <= i < |keys| ==> keys[i] in m
    ensures CheckKeys(keys, JObject(m)) != AllPresent ==> CheckKeys(keys, JObject(m)) == SomeMissing
  {
  }

}
