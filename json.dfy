/** An already parsed JSON document, as nlohmann::json holds one. Reading
    and parsing the file text is not part of this model. */
module JsonValue {
  import Text

  /** nlohmann's object type is a std::map, so an object is a map from key to value. */
  datatype Json =
    | JNull
    | JBool(b: bool)
    | JInt(i: int)
    | JString(s: string)
    | JArray(items: seq<Json>)
    | JObject(fields: map<string, Json>)

  /** json::contains: only an object contains keys. */
  predicate Contains(j: Json, key: string) {
    j.JObject? && key in j.fields
  }

  /** What a range-for over a json value visits: nothing for null, the
      elements of an array, the values of an object in key order, and the
      value itself for any other (primitive) value. */
  function Elements(j: Json): (r: seq<Json>)
    ensures j.JArray? ==> r == j.items
    ensures j.JNull? ==> r == []
    ensures j.JObject? ==> |r| == |j.fields|
  {
    match j
    case JNull => []
    case JArray(items) => items
    case JObject(fields) =>
      var keys := Text.SortedKeys(fields.Keys);
      seq(|keys|, i requires 0 <= i < |keys| => fields[keys[i]])
    case _ => [j]
  }
}
