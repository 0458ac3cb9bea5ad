/**
 The values that flow through the validation decorator. The schema engines (zod on the
 server, Ajv on the client, zod-to-json-schema between them) are third-party: each is an
 uninterpreted function here, and only its verdict matters.
 */
module Schema {
  import opened Wrappers

  /** A parsed JSON value: a request body, a query object, or a JSON Schema document. */
  datatype Json =
    | JNull
    | JBool(b: bool)
    | JNumber(n: int)
    | JString(s: string)
    | JArray(items: seq<Json>)
    | JObject(fields: map<string, Json>)

  /** One step of a zod issue path: an object key or an array index. */
  datatype Segment = Key(name: string) | Index(index: nat)

  /** One entry of `ZodError.errors`: what is wrong, and where. */
  datatype Issue = Issue(message: string, path: seq<Segment>)

  /** What `schema.parse(value)` does: return, or throw a `ZodError` carrying its issues. */
  datatype Verdict = Valid | Invalid(issues: seq<Issue>)

  /** A zod object or record schema, seen through its `parse`. */
  type ZodSchema = Json -> Verdict

  /** The JSON Schema document zod-to-json-schema produces for a zod schema. */
  type JsonSchema = Json

  /** `ajv.validate(schema, data)` together with `ajv.errorsText()` read right after it. */
  datatype AjvVerdict = Passes | Fails(errorsText: string)

  /** The shared Ajv instance, seen through its `validate`. */
  type Ajv = (JsonSchema, Json) -> AjvVerdict

  /** The two statuses of `HttpStatus` this core raises. */
  datatype HttpStatus = BadRequest | Null

  /** The bundle `{ body, query }` the server attaches to a route for its clients. */
  datatype ClientValidators = ClientValidators(body: Option<JsonSchema>, query: Option<JsonSchema>)
}
