/**
 * The parsed JSON values the review endpoint returns. A review record is a
 * JSON object, kept here as a map from field names to values.
 */
module Json {

  datatype Json =
    | JNull
    | JBool(b: bool)
    | JNum(n: int)
    | JStr(s: string)
    | JArr(items: seq<Json>)
    | JObj(fields: map<string, Json>)

  /** One review record of a batch: the object's fields. */
  type Record = map<string, Json>
}
