# vovk zod validation, modelled in Dafny

This project models the request-validation decorator that `next-smoothie-zod` provides for
the `vovk` framework. It also models the client-side pre-flight check that goes with it.

- **Server interceptor** (`index.ts`). If a body schema is given, the interceptor reads the
  request's JSON body and validates it with zod. A rejection becomes `400 Bad Request` with
  the message `"Invalid body on server. "` followed by the issues. Each issue is rendered as
  `message (seg/seg/…)`, and the issues are joined with `", "`. A valid body replaces the
  request's `json` accessor, so later reads return the validated value. If a query schema is
  given, the interceptor builds an object from the search parameters, where a later duplicate
  key wins. It deletes the router's `nxtP` key and then validates the object. A rejection
  becomes `400` with the prefix `"Invalid query on server. "`. Otherwise the interceptor
  returns whatever `next()` returns.
- **Metadata hook** (`index.ts`). Each present schema becomes its JSON Schema projection in
  `clientValidators`. Each absent schema becomes `null`.
- **Client pre-flight** (`zodValidateOnClient.ts`). Ajv checks the body and then the query
  against the published projections. The first failure throws with status `HttpStatus.NULL`
  and the message `"Invalid body on client. "` or `"Invalid query on client. "` followed by
  Ajv's error text. If nothing fails, the call proceeds.

The schema engines are third-party, so each one is a parameter here:

- A zod schema is a function `Json -> Verdict`. It either accepts the value or reports
  issues, each with a message and a path.
- Ajv is a function `(JsonSchema, Json) -> AjvVerdict`. A failing verdict carries the text
  that `ajv.errorsText()` returns right after the call.
- zod-to-json-schema is a function `ZodSchema -> JsonSchema`.

Files:

- `wrappers.dfy`: the `Option` datatype.
- `text.dfy`: `join`, its inverse `Split`, and the decimal rendering of path indices together
  with its inverse.
- `schema.dfy`: the shared data model.
- `server.dfy`: `index.ts`, with the `Request` class and its `Intercept` method.
- `client.dfy`: `zodValidateOnClient.ts`, plus the lemma that connects the client to the server.

In three places the code does something other than one might expect, and the model follows the code:

- After a valid body, the request's body accessor returns the JSON value that was read. It
  does not return zod's parse output, which `index.ts:16` discards.
- The client status is the sentinel `HttpStatus.NULL` as written. No dedicated status is
  invented for it.
- This variant of the code deletes `nxtP`, so the model deletes it too.

## Model

| member | source | states |
|---|---|---|
| Text.JoinSnoc | index.ts:18 | `join` puts the separator between neighbours: adding a part at the end appends the separator and that part, so order is kept |
| Text.SplitJoin | index.ts:18 | splitting a joined path at "/" gives back the segments, provided there is at least one segment and none contains "/" |
| Text.JoinSplit | index.ts:18 | joining the pieces of a split with "/" restores every string; `Split` undoes `Join` only on non-empty part lists with no "/" in any part (`Text.SplitJoin`) |
| Text.DecimalRoundTrip | index.ts:18 | a numeric path segment renders as decimal digits with no leading zero, and those digits read back as the index |
| Server.FormatIssuesSnoc | index.ts:18 | issues appear in the order the validator reports them: a later issue follows the earlier ones after ", " |
| Server.PathTextsSlashFree | index.ts:18 | a rendered path segment contains no "/" when no key does, because indices render as digits |
| Server.IssueTextShape | index.ts:18 | every issue's text is its message, " (", the path texts joined by "/" and ")"; the root path gives "message ()" |
| Server.IssueTextReadsBack | index.ts:18 | an issue's text is its message, then " (", then the path joined by "/", then ")"; the path can be read back |
| Server.FromEntriesKeys | index.ts:25 | `Object.fromEntries` has a key iff some entry has that key |
| Server.FromEntriesLastWins | index.ts:25 | each key of `Object.fromEntries` maps to the value of its last occurrence in the entries |
| Server.QueryMapContents | index.ts:25-26 | the query object never has `nxtP`; every other key of the entries maps to its last value; there are no other keys |
| Server.QueryMapSkipsRoutingKey | index.ts:25-26 | deleting `nxtP` after building the object equals building it from the entries without `nxtP` |
| Server.RoutingKeyIrrelevant | index.ts:26 | an `nxtP` entry anywhere in the search parameters leaves the query object unchanged |
| Server.QueryObjectInjective | index.ts:25-28 | two query maps that encode to the same object given to the query schema are equal, so the schema sees exactly the query map |
| Server.Request.Intercept | index.ts:12-36 | the method's outcome and new body accessor are those of `Interception`; without a body schema the accessor is untouched; after a valid body it returns the validated value |
| Server.BodyRejection | index.ts:13-20 | a rejected body gives 400 with the body prefix and the formatted issues, keeps the accessor, and ignores the query schema and `next` |
| Server.QueryRejection | index.ts:24-32 | once the body has passed, a rejected query object gives 400 with the query prefix and the formatted issues, without consulting `next` |
| Server.ForwardedIffAllAccept | index.ts:13-35 | the request is forwarded iff every present schema accepts its value; the result is then `next`'s; without a body schema the accessor is unchanged |
| Server.BodyMemoized | index.ts:14-21 | after a valid body, the accessor returns exactly the value that was validated, on every read |
| Server.NoSchemasForwards | index.ts:35 | with neither schema, the outcome is `next()`'s result on the untouched request |
| Server.InterceptionIgnoresRoutingKey | index.ts:25-28 | an `nxtP` search parameter never changes whether the request is forwarded, the rejection when it is not, or the new body accessor; the handler still sees it, because the deletion touches only the local `query` |
| Server.Describe | index.ts:37-44 | `clientValidators.body` is null iff no body schema was given, and is otherwise that schema's projection; the same holds for `query` |
| Client.ValidateOnClient | zodValidateOnClient.ts:7-23 | the call proceeds iff every present validator accepts its payload; a failing body throws `NULL` with the body prefix and Ajv's text; if the body passes, a failing query throws `NULL` with the query prefix |
| Client.BodyCheckedFirst | zodValidateOnClient.ts:8-22 | when the body fails, the outcome does not depend on what Ajv says about the query, so the query is never validated |
| Client.NoValidatorsProceed | zodValidateOnClient.ts:8-22 | with both validators absent, every call proceeds |
| Client.PreflightMatchesServer | zodValidateOnClient.ts:7-23 | if Ajv on each projection accepts exactly what its zod schema accepts, then the client lets a payload through iff the server would forward the matching request |

## Left out

- zod's `parse`, zod-to-json-schema and Ajv's JSON Schema evaluation are third-party libraries. They are function parameters here. Whether Ajv's verdict on a projection matches zod's verdict is a hypothesis (`Client.Agrees`) and is not proved.
- Ajv's wording in `errorsText` is not modelled. Neither is the shared Ajv instance's `errors` state: the error text is part of the abstract verdict.
- `async`/`await` and the promise around `req.json()` are not modelled. The body read is a field read. The replacement accessor is a field assignment.
- A rejected `req.json()` (a body that is not JSON) is the outcome `BodyReadFailed`. It propagates out of the interceptor and is not a 400, as in the code.
- A real request body can be read from the transport only once. The model does not capture this: a `Transport` accessor gives the same parse on every read.
- The handler behind `next` is a function of the request's body accessor and its search entries, `nxtP` included, as the real handler reads the same request. Its own side effects are outside this core.
- URL parsing and percent-decoding of the search parameters are not modelled. The request carries the already-decoded entries.
- `createDecorator`, `HttpException` and `HttpStatus` are framework internals. Only the two statuses used appear, as an enumeration, and their numeric codes are not modelled.
- JSON numbers are integers here. Floating point is not modelled, and the validators treat values as opaque anyway.
- Text.DecimalRoundTrip covers the rendering of array indices only. JavaScript switches to exponent notation at 10^21, which no index reaches.
- Client.PreflightMatchesServer assumes the client sends, as its query payload, the same object the server builds from the search parameters. Turning a client query object into a URL is not modelled.
- The path rendering is not injective: the root path and a path holding one empty key both render as "m ()", and `Index(5)` and `Key("5")` both render as "5". The model only proves that a non-empty path with no "/" in its keys can be read back.
- Key order of JSON objects is not modelled. `Json.JObject` and the query map are Dafny maps, but JavaScript objects keep insertion order, with integer-like keys first. zod reports the issues of a `z.record` schema in key order, so two requests whose search parameters come in different orders can get 400 messages with their issues in different orders. The model cannot tell these apart.
- `undefined` is not modelled. `ClientInput` always carries a JSON body and query, while a call without a query hands `undefined` to `ajv.validate`.
- Client.ValidateOnClient treats every present projection as a validator, while `if (validators.body)` and `if (validators.query)` test truthiness. A falsy projection, such as the JSON Schema `false`, would be skipped by the code and checked by the model. zod-to-json-schema produces an object for the object and record schemas the decorator accepts, so this never arises.
