/**
  JSON values as the profile serializer reads and writes them (QJsonValue,
  QJsonArray, QJsonObject), with the lenient conversions Qt applies when a value
  has another type than the one asked for.
 */
module JsonValues {

  /** A JSON value. Numbers are integral: the serializer writes only ints and bools. */
  datatype Json =
    | JNull
    | JBool(b: bool)
    | JNumber(n: int)
    | JString(s: string)
    | JArray(elems: seq<Json>)
    | JObject(fields: map<string, Json>)

  /** A value `int` can hold. */
  predicate Int32(n: int) {
    -0x8000_0000 <= n < 0x8000_0000
  }

  /** QJsonValue::toBool: the boolean, or false for any other type. */
  function ToBool(v: Json): (b: bool)
    ensures b ==> v == JBool(true)
  {
    if v.JBool? then v.b else false
  }

  /** QJsonValue::toInt: the number when an int can hold it, else 0. */
  function ToInt(v: Json): (i: int)
    ensures Int32(i)
    ensures v.JNumber? && Int32(v.n) ==> i == v.n
    ensures i != 0 ==> v == JNumber(i)
  {
    if v.JNumber? && Int32(v.n) then v.n else 0
  }

  /** QJsonValue::toString: the string, or the empty string for any other type. */
  function ToString(v: Json): (s: string)
    ensures s != "" ==> v == JString(s)
  {
    if v.JString? then v.s else ""
  }

  /** QJsonValue::toArray: the elements, or none for any other type. */
  function ToArray(v: Json): (a: seq<Json>)
    ensures a != [] ==> v == JArray(a)
  {
    if v.JArray? then v.elems else []
  }

  /** QJsonValue::toObject: the members, or none for any other type. */
  function ToObject(v: Json): (o: map<string, Json>)
    ensures o != map[] ==> v == JObject(o)
  {
    if v.JObject? then v.fields else map[]
  }

  /** The const QJsonObject::operator[]: the member's value, or an undefined value that converts like null. */
  function Member(obj: map<string, Json>, key: string): (v: Json)
    ensures key in obj ==> v == obj[key]
    ensures key !in obj ==> v == JNull
  {
    if key in obj then obj[key] else JNull
  }
}
