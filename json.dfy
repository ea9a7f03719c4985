/**
 * A parsed JSON document. Turning text into this tree, and this tree back
 * into (indented) text, is System.Text.Json's business and enters the model
 * only as function parameters.
 */
module Json {

  datatype JsonValue =
    | JNull
    | JBool(b: bool)
    | JNumber(literal: string)
    | JString(s: string)
    | JArray(items: seq<JsonValue>)
    | JObject(members: seq<Member>)

  /** One `"name": value` pair of an object, in document order. */
  datatype Member = Member(name: string, value: JsonValue)
}
