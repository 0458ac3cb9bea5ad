/**
 The client half (zodValidateOnClient.ts): before a call is sent, its body and then its
 query are checked with Ajv against the JSON Schema documents the route published.
 */
module Client {
  import opened Wrappers
  import opened Schema
  import Server

  const BodyPrefix: string := "Invalid body on client. "
  const QueryPrefix: string := "Invalid query on client. "

  /** The outgoing call's payload. */
  datatype ClientInput = ClientInput(body: Json, query: Json)

  /** The call may proceed, or an `HttpException` is thrown. */
  datatype ClientOutcome = Proceed | Thrown(status: HttpStatus, message: string)

  /** An absent validator admits everything; a present one admits what Ajv accepts. */
  predicate Admits(validator: Option<JsonSchema>, value: Json, ajv: Ajv)
  {
    validator.None? || ajv(validator.value, value).Passes?
  }

  /** The pre-flight check: the body first, then the query; the first failure throws. */
  function ValidateOnClient(input: ClientInput, validators: ClientValidators, ajv: Ajv): (o: ClientOutcome)
    ensures o.Proceed? <==>
      Admits(validators.body, input.body, ajv) && Admits(validators.query, input.query, ajv)
    ensures o.Thrown? ==> o.status == Null
    ensures !Admits(validators.body, input.body, ajv) ==>
      o == Thrown(Null, BodyPrefix + ajv(validators.body.value, input.body).errorsText)
    ensures Admits(validators.body, input.body, ajv) && !Admits(validators.query, input.query, ajv) ==>
      o == Thrown(Null, QueryPrefix + ajv(validators.query.value, input.query).errorsText)
  {
    if validators.body.Some? && ajv(validators.body.value, input.body).Fails? then
      Thrown(Null, BodyPrefix + ajv(validators.body.value, input.body).errorsText)
    else if validators.query.Some? && ajv(validators.query.value, input.query).Fails? then
      Thrown(Null, QueryPrefix + ajv(validators.query.value, input.query).errorsText)
    else
      Proceed
  }

  /** When the body fails, the query is never validated: any Ajv that gives the same verdict on
      the body yields the same outcome, whatever it says about the query. */
  lemma BodyCheckedFirst(input: ClientInput, validators: ClientValidators, ajv: Ajv, otherAjv: Ajv)
    requires validators.body.Some? && ajv(validators.body.value, input.body).Fails?
    requires otherAjv(validators.body.value, input.body) == ajv(validators.body.value, input.body)
    ensures ValidateOnClient(input, validators, ajv) == ValidateOnClient(input, validators, otherAjv)
  {
  }

  /** With no validators the call always proceeds. */
  lemma NoValidatorsProceed(input: ClientInput, ajv: Ajv)
    ensures ValidateOnClient(input, ClientValidators(None, None), ajv) == Proceed
  {
  }

  /** Ajv, on the JSON Schema projection of `schema`, accepts exactly what `schema` accepts. */
  ghost predicate Agrees(schema: ZodSchema, toJsonSchema: ZodSchema -> JsonSchema, ajv: Ajv)
  {
    forall v :: ajv(toJsonSchema(schema), v).Passes? <==> schema(v).Valid?
  }

  /** Where the projections agree with their zod schemas, a call whose payload is the body and the
      query object the server will see proceeds on the client exactly when the server forwards it
      to the handler. Agreement itself is a property of the third-party libraries. */
  lemma PreflightMatchesServer<R>(
    body: Json, searchParams: seq<(string, string)>,
    bodyModel: Option<ZodSchema>, queryModel: Option<ZodSchema>,
    toJsonSchema: ZodSchema -> JsonSchema, ajv: Ajv, next: Server.Handler<R>)
    requires bodyModel.Some? ==> Agrees(bodyModel.value, toJsonSchema, ajv)
    requires queryModel.Some? ==> Agrees(queryModel.value, toJsonSchema, ajv)
    ensures
      var validators := Server.Describe(bodyModel, queryModel, toJsonSchema).clientValidators;
      var input := ClientInput(body, Server.QueryObject(Server.QueryMap(searchParams)));
      var server := Server.Interception(Server.Transport(Some(body)), searchParams, bodyModel, queryModel, next);
      ValidateOnClient(input, validators, ajv).Proceed? <==> server.1.Forwarded?
  {
    var query := Server.QueryObject(Server.QueryMap(searchParams));
    if bodyModel.Some? {
      assert ajv(toJsonSchema(bodyModel.value), body).Passes? <==> bodyModel.value(body).Valid?;
    }
    if queryModel.Some? {
      assert ajv(toJsonSchema(queryModel.value), query).Passes? <==> queryModel.value(query).Valid?;
    }
  }
}
