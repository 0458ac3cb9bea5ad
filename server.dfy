/**
 The server half of the decorator (index.ts): the interceptor that validates a request's
 body, then its query, before handing the request on, and the metadata hook that
 publishes the JSON Schema projections of the two schemas for clients.
 */
module Server {
  import opened Wrappers
  import opened Text
  import opened Schema

  const BodyPrefix: string := "Invalid body on server. "
  const QueryPrefix: string := "Invalid query on server. "

  /** The router's own search parameter, which never reaches the query schema. */
  const RoutingKey: string := "nxtP"

  // ---------------------------------------------------------------------------
  // Issue messages

  /** A path segment as `Array.prototype.join` stringifies it. */
  function SegmentText(s: Segment): string
  {
    match s
    case Key(name) => name
    case Index(i) => Decimal(i)
  }

  /** The path's segments as text, in order. */
  function PathTexts(path: seq<Segment>): seq<string>
  {
    seq(|path|, k requires 0 <= k < |path| => SegmentText(path[k]))
  }

  /** One issue as `${message} (${path.join('/')})`. */
  function IssueText(issue: Issue): string
  {
    issue.message + " (" + Join(PathTexts(issue.path), "/") + ")"
  }

  /** Each issue as text, in the validator's order. */
  function IssueTexts(issues: seq<Issue>): seq<string>
  {
    seq(|issues|, k requires 0 <= k < |issues| => IssueText(issues[k]))
  }

  /** The message text after the prefix: every issue rendered, joined with ", ". */
  function FormatIssues(issues: seq<Issue>): string
  {
    Join(IssueTexts(issues), ", ")
  }

  /** Issues are rendered in the order the validator reports them: a later issue comes after
      all earlier ones, separated by ", ". */
  lemma FormatIssuesSnoc(issues: seq<Issue>, last: Issue)
    ensures FormatIssues(issues + [last]) ==
      if issues == [] then IssueText(last) else FormatIssues(issues) + ", " + IssueText(last)
  {
    assert IssueTexts(issues + [last]) == IssueTexts(issues) + [IssueText(last)];
    JoinSnoc(IssueTexts(issues), IssueText(last), ", ");
  }

  /** No segment text of the path contains the separator `/`. */
  predicate SlashFree(path: seq<Segment>)
  {
    forall k :: 0 <= k < |path| && path[k].Key? ==> '/' !in path[k].name
  }

  /** No rendered segment of a slash-free path contains "/": indices render as digits. */
  lemma PathTextsSlashFree(path: seq<Segment>)
    requires SlashFree(path)
    ensures forall k :: 0 <= k < |PathTexts(path)| ==> '/' !in PathTexts(path)[k]
  {
    forall k | 0 <= k < |path| ensures '/' !in SegmentText(path[k]) {
      if path[k].Index? {
        var d := Decimal(path[k].index);
        DecimalRoundTrip(path[k].index);
        assert forall j :: 0 <= j < |d| ==> d[j] != '/';
      }
    }
  }

  /** Every issue's text is its message, then " (", the path texts joined by "/", and a final ")";
      for the root path (zod's path for a value that is not an object) the parentheses are empty. */
  lemma IssueTextShape(issue: Issue)
    ensures var t, m, p := IssueText(issue), issue.message, Join(PathTexts(issue.path), "/");
      && |t| == |m| + |p| + 3
      && t[..|m|] == m && t[|m|..|m| + 2] == " (" && t[|m| + 2..|t| - 1] == p && t[|t| - 1] == ')'
      && (issue.path == [] ==> t == m + " ()")
  {
    var m, p := issue.message, Join(PathTexts(issue.path), "/");
    var t := m + " (" + p + ")";
    assert IssueText(issue) == t;
    assert t[..|m|] == m;
    assert t[|m|..|m| + 2] == " (";
    assert t[|m| + 2..|t| - 1] == p;
  }

  /** An issue's text starts with its message, then " (", and ends with ")"; in between, the path
      can be read back by splitting at "/" when it is non-empty and no key holds a "/". */
  lemma IssueTextReadsBack(issue: Issue)
    requires |issue.path| >= 1 && SlashFree(issue.path)
    ensures var t, m := IssueText(issue), issue.message;
      && |t| >= |m| + 3
      && t[..|m|] == m && t[|m|..|m| + 2] == " (" && t[|t| - 1] == ')'
      && Split(t[|m| + 2..|t| - 1], '/') == PathTexts(issue.path)
  {
    var texts := PathTexts(issue.path);
    PathTextsSlashFree(issue.path);
    SplitJoin(texts, '/');
    var m, p := issue.message, Join(texts, "/");
    var t := m + " (" + p + ")";
    assert IssueText(issue) == t;
    assert t[..|m|] == m;
    assert t[|m|..|m| + 2] == " (";
    assert t[|m| + 2..|t| - 1] == p;
  }

  // ---------------------------------------------------------------------------
  // The query object

  /** `Object.fromEntries(entries)`: keys in order, a later duplicate overwriting an earlier one. */
  function FromEntries(entries: seq<(string, string)>): map<string, string>
    decreases |entries|
  {
    if entries == [] then map[]
    else
      var last := entries[|entries| - 1];
      FromEntries(entries[..|entries| - 1])[last.0 := last.1]
  }

  /** Entry `i` is the last one in `entries` with key `k`. */
  ghost predicate IsLastOccurrence(entries: seq<(string, string)>, k: string, i: int)
  {
    0 <= i < |entries| && entries[i].0 == k &&
    forall j :: i < j < |entries| ==> entries[j].0 != k
  }

  /** The keys of `Object.fromEntries` are exactly the keys of the entries. */
  lemma {:induction false} FromEntriesKeys(entries: seq<(string, string)>, k: string)
    ensures k in FromEntries(entries) <==> exists i :: 0 <= i < |entries| && entries[i].0 == k
    decreases |entries|
  {
    if entries != [] {
      var n := |entries| - 1;
      var init := entries[..n];
      FromEntriesKeys(init, k);
      if k in FromEntries(entries) {
        if entries[n].0 != k {
          var i :| 0 <= i < |init| && init[i].0 == k;
          assert entries[i].0 == k;
        }
      }
      if exists i :: 0 <= i < |entries| && entries[i].0 == k {
        var i :| 0 <= i < |entries| && entries[i].0 == k;
        if i < n {
          assert init[i].0 == k;
        }
      }
    }
  }

  /** Each key of `Object.fromEntries` holds the value of its last occurrence in the entries. */
  lemma {:induction false} FromEntriesLastWins(entries: seq<(string, string)>, k: string)
    ensures forall i :: IsLastOccurrence(entries, k, i) ==>
      k in FromEntries(entries) && FromEntries(entries)[k] == entries[i].1
    decreases |entries|
  {
    if entries != [] {
      var n := |entries| - 1;
      var init := entries[..n];
      FromEntriesLastWins(init, k);
      forall i | IsLastOccurrence(entries, k, i)
        ensures k in FromEntries(entries) && FromEntries(entries)[k] == entries[i].1
      {
        if i < n {
          assert entries[n].0 != k;
          assert IsLastOccurrence(init, k, i);
        }
      }
    }
  }

  /** The object the query schema validates: the search entries with the routing key deleted. */
  function QueryMap(entries: seq<(string, string)>): map<string, string>
  {
    var query := FromEntries(entries);
    query - {RoutingKey}
  }

  /** The query map never holds the routing key; every other key of the entries is in it with the
      value of its last occurrence, and it has no other keys. */
  lemma QueryMapContents(entries: seq<(string, string)>, k: string)
    ensures RoutingKey !in QueryMap(entries)
    ensures k in QueryMap(entries) <==>
      k != RoutingKey && exists i :: 0 <= i < |entries| && entries[i].0 == k
    ensures forall i :: k != RoutingKey && IsLastOccurrence(entries, k, i) ==>
      k in QueryMap(entries) && QueryMap(entries)[k] == entries[i].1
  {
    FromEntriesKeys(entries, k);
    FromEntriesLastWins(entries, k);
  }

  /** The entries whose key is not `k`, in order. */
  function WithoutKey(entries: seq<(string, string)>, k: string): seq<(string, string)>
    decreases |entries|
  {
    if entries == [] then []
    else
      var n := |entries| - 1;
      WithoutKey(entries[..n], k) + (if entries[n].0 == k then [] else [entries[n]])
  }

  /** Filtering a key out of two entry lists in turn filters it out of their concatenation. */
  lemma {:induction false} WithoutKeyAppend(a: seq<(string, string)>, b: seq<(string, string)>, k: string)
    ensures WithoutKey(a + b, k) == WithoutKey(a, k) + WithoutKey(b, k)
    decreases |b|
  {
    if b == [] {
      assert a + b == a;
    } else {
      var n := |b| - 1;
      assert (a + b)[..|a + b| - 1] == a + b[..n];
      WithoutKeyAppend(a, b[..n], k);
    }
  }

  /** One more entry at the end sets its key to its value on top of the earlier ones. */
  lemma FromEntriesSnoc(entries: seq<(string, string)>, e: (string, string))
    ensures FromEntries(entries + [e]) == FromEntries(entries)[e.0 := e.1]
  {
  }

  /** Deleting the routing key after building the object is the same as never reading its entries. */
  lemma {:induction false} QueryMapSkipsRoutingKey(entries: seq<(string, string)>)
    ensures QueryMap(entries) == FromEntries(WithoutKey(entries, RoutingKey))
    decreases |entries|
  {
    if entries != [] {
      var n := |entries| - 1;
      var init, last := entries[..n], entries[n];
      QueryMapSkipsRoutingKey(init);
      var w := WithoutKey(init, RoutingKey);
      assert FromEntries(entries) == FromEntries(init)[last.0 := last.1];
      if last.0 != RoutingKey {
        assert WithoutKey(entries, RoutingKey) == w + [last];
        FromEntriesSnoc(w, last);
        assert FromEntries(init)[last.0 := last.1] - {RoutingKey} ==
          (FromEntries(init) - {RoutingKey})[last.0 := last.1];
      } else {
        assert WithoutKey(entries, RoutingKey) == w;
        assert FromEntries(init)[last.0 := last.1] - {RoutingKey} == FromEntries(init) - {RoutingKey};
      }
    }
  }

  /** A routing-key entry anywhere in the search parameters leaves the query map unchanged. */
  lemma RoutingKeyIrrelevant(a: seq<(string, string)>, v: string, b: seq<(string, string)>)
    ensures QueryMap(a + [(RoutingKey, v)] + b) == QueryMap(a + b)
  {
    var x := [(RoutingKey, v)];
    assert WithoutKey(x, RoutingKey) == [] by {
      assert x[..0] == [];
    }
    WithoutKeyAppend(a, x, RoutingKey);
    WithoutKeyAppend(a + x, b, RoutingKey);
    WithoutKeyAppend(a, b, RoutingKey);
    assert WithoutKey(a + x, RoutingKey) == WithoutKey(a, RoutingKey);
    assert WithoutKey(a + x + b, RoutingKey) == WithoutKey(a + b, RoutingKey);
    QueryMapSkipsRoutingKey(a + x + b);
    QueryMapSkipsRoutingKey(a + b);
  }

  /** The query map as the JSON object zod is given: every value a string. */
  function QueryObject(query: map<string, string>): (obj: Json)
    ensures obj.JObject? && obj.fields.Keys == query.Keys
    ensures forall k :: k in query ==> obj.fields[k] == JString(query[k])
  {
    JObject(map k | k in query :: JString(query[k]))
  }

  /** The query schema sees exactly the query map: two maps that encode to the same object are equal. */
  lemma QueryObjectInjective(q1: map<string, string>, q2: map<string, string>)
    requires QueryObject(q1) == QueryObject(q2)
    ensures q1 == q2
  {
    assert q1.Keys == q2.Keys;
    forall k | k in q1 ensures q1[k] == q2[k] {
      assert JString(q1[k]) == QueryObject(q1).fields[k] == JString(q2[k]);
    }
  }

  // ---------------------------------------------------------------------------
  // The interceptor

  /** What `req.json()` resolves to: first the transport's parse of the body (`None` when the body
      is not JSON and the read rejects), after a successful validation the validated value. */
  datatype BodyAccessor = Transport(parsed: Option<Json>) | Resolved(value: Json)

  /** What a call of `req.json()` yields through this accessor: `None` when it rejects. */
  function ReadJson(accessor: BodyAccessor): Option<Json>
  {
    match accessor
    case Transport(parsed) => parsed
    case Resolved(value) => Some(value)
  }

  /** The continuation `next`: the handler reads the same request, so it sees the body accessor as
      the interceptor leaves it and the search entries as they came, `nxtP` included. */
  type Handler<R> = (BodyAccessor, seq<(string, string)>) -> R

  /** How the interceptor ends: it returns what `next()` returned, it throws an `HttpException`,
      or the rejection of `req.json()` propagates out of it. */
  datatype Outcome<R> =
    | Forwarded(result: R)
    | Rejected(status: HttpStatus, message: string)
    | BodyReadFailed

  /** The interceptor as a function of the request's body accessor and search entries, the two
      optional schemas and the continuation: the new body accessor and the outcome. It specifies
      `Request.Intercept`, and the properties of the interceptor are proved about it. */
  function Interception<R>(
    json: BodyAccessor, searchParams: seq<(string, string)>,
    bodyModel: Option<ZodSchema>, queryModel: Option<ZodSchema>,
    next: Handler<R>): (BodyAccessor, Outcome<R>)
  {
    if bodyModel.Some? && ReadJson(json).None? then
      (json, BodyReadFailed)
    else if bodyModel.Some? && bodyModel.value(ReadJson(json).value).Invalid? then
      (json, Rejected(BadRequest, BodyPrefix + FormatIssues(bodyModel.value(ReadJson(json).value).issues)))
    else
      var json' := if bodyModel.Some? then Resolved(ReadJson(json).value) else json;
      var query := QueryObject(QueryMap(searchParams));
      if queryModel.Some? && queryModel.value(query).Invalid? then
        (json', Rejected(BadRequest, QueryPrefix + FormatIssues(queryModel.value(query).issues)))
      else
        (json', Forwarded(next(json', searchParams)))
  }

  /** A request as the interceptor sees it: a replaceable body accessor and the decoded search entries. */
  class Request {
    var json: BodyAccessor
    const searchParams: seq<(string, string)>

    constructor (json: BodyAccessor, searchParams: seq<(string, string)>)
      ensures this.json == json && this.searchParams == searchParams
    {
      this.json := json;
      this.searchParams := searchParams;
    }

    /** Validates the body, then the query, then calls `next`; on a valid body, replaces the body
        accessor by one that returns the validated value. */
    method Intercept<R(==)>(bodyModel: Option<ZodSchema>, queryModel: Option<ZodSchema>, next: Handler<R>)
      returns (o: Outcome<R>)
      modifies this
      ensures (json, o) == Interception(old(json), searchParams, bodyModel, queryModel, next)
      ensures bodyModel.None? ==> json == old(json)
      ensures bodyModel.Some? && ReadJson(old(json)).Some? && bodyModel.value(ReadJson(old(json)).value).Valid? ==>
        json == Resolved(ReadJson(old(json)).value)
    {
      if bodyModel.Some? {
        var body := ReadJson(json);
        if body.None? {
          return BodyReadFailed;
        }
        var verdict := bodyModel.value(body.value);
        if verdict.Invalid? {
          return Rejected(BadRequest, BodyPrefix + FormatIssues(verdict.issues));
        }
        json := Resolved(body.value);
      }

      if queryModel.Some? {
        var query := FromEntries(searchParams);
        query := query - {RoutingKey};
        var verdict := queryModel.value(QueryObject(query));
        if verdict.Invalid? {
          return Rejected(BadRequest, QueryPrefix + FormatIssues(verdict.issues));
        }
      }

      o := Forwarded(next(json, searchParams));
    }
  }

  // ---------------------------------------------------------------------------
  // Properties of the interceptor

  /** A present body schema that rejects the body yields 400 with the body prefix, whatever the
      query schema is and whatever `next` is: neither is consulted, and the accessor is kept. */
  lemma BodyRejection<R>(
    json: BodyAccessor, searchParams: seq<(string, string)>,
    body: Json, bodyModel: ZodSchema, queryModel: Option<ZodSchema>, next: Handler<R>,
    otherQueryModel: Option<ZodSchema>, otherNext: Handler<R>)
    requires ReadJson(json) == Some(body) && bodyModel(body).Invalid?
    ensures Interception(json, searchParams, Some(bodyModel), queryModel, next) ==
      (json, Rejected(BadRequest, BodyPrefix + FormatIssues(bodyModel(body).issues)))
    ensures Interception(json, searchParams, Some(bodyModel), queryModel, next) ==
      Interception(json, searchParams, Some(bodyModel), otherQueryModel, otherNext)
  {
  }

  /** A present query schema that rejects the query object yields 400 with the query prefix once
      the body has passed, and `next` is not consulted. */
  lemma QueryRejection<R>(
    json: BodyAccessor, searchParams: seq<(string, string)>,
    bodyModel: Option<ZodSchema>, queryModel: ZodSchema, next: Handler<R>, otherNext: Handler<R>)
    requires bodyModel.Some? ==> ReadJson(json).Some? && bodyModel.value(ReadJson(json).value).Valid?
    requires queryModel(QueryObject(QueryMap(searchParams))).Invalid?
    ensures Interception(json, searchParams, bodyModel, Some(queryModel), next).1 ==
      Rejected(BadRequest, QueryPrefix + FormatIssues(queryModel(QueryObject(QueryMap(searchParams))).issues))
    ensures Interception(json, searchParams, bodyModel, Some(queryModel), next) ==
      Interception(json, searchParams, bodyModel, Some(queryModel), otherNext)
  {
  }

  /** The request is forwarded exactly when every present schema accepts its value; then the result
      is `next`'s, called on the accessor that returns the validated body (or the untouched accessor
      when there is no body schema). */
  lemma ForwardedIffAllAccept<R>(
    json: BodyAccessor, searchParams: seq<(string, string)>,
    bodyModel: Option<ZodSchema>, queryModel: Option<ZodSchema>, next: Handler<R>)
    ensures var (json', o) := Interception(json, searchParams, bodyModel, queryModel, next);
      && (o.Forwarded? <==>
           (bodyModel.Some? ==> ReadJson(json).Some? && bodyModel.value(ReadJson(json).value).Valid?) &&
           (queryModel.Some? ==> queryModel.value(QueryObject(QueryMap(searchParams))).Valid?))
      && (o.Forwarded? ==> o.result == next(json', searchParams))
      && (bodyModel.None? ==> json' == json)
  {
  }

  /** After a valid body, every later read of the body returns the validated value itself. */
  lemma BodyMemoized<R>(
    json: BodyAccessor, searchParams: seq<(string, string)>,
    body: Json, bodyModel: ZodSchema, queryModel: Option<ZodSchema>, next: Handler<R>)
    requires ReadJson(json) == Some(body) && bodyModel(body).Valid?
    ensures var json' := Interception(json, searchParams, Some(bodyModel), queryModel, next).0;
      json' == Resolved(body) && ReadJson(json') == Some(body)
  {
  }

  /** With neither schema the interceptor is transparent: `next`'s result on the untouched request. */
  lemma NoSchemasForwards<R>(json: BodyAccessor, searchParams: seq<(string, string)>, next: Handler<R>)
    ensures Interception(json, searchParams, None, None, next) == (json, Forwarded(next(json, searchParams)))
  {
  }

  /** A routing-key entry in the search parameters never changes whether the request is forwarded,
      the rejection when it is not, or the new body accessor. The handler itself still sees the
      entry, so what it returns may differ. */
  lemma InterceptionIgnoresRoutingKey<R>(
    json: BodyAccessor, a: seq<(string, string)>, v: string, b: seq<(string, string)>,
    bodyModel: Option<ZodSchema>, queryModel: Option<ZodSchema>, next: Handler<R>)
    ensures
      var with := Interception(json, a + [(RoutingKey, v)] + b, bodyModel, queryModel, next);
      var without := Interception(json, a + b, bodyModel, queryModel, next);
      && with.0 == without.0
      && (with.1.Forwarded? <==> without.1.Forwarded?)
      && (!with.1.Forwarded? ==> with.1 == without.1)
  {
    RoutingKeyIrrelevant(a, v, b);
  }

  // ---------------------------------------------------------------------------
  // The metadata hook

  datatype RouteMetadata = RouteMetadata(clientValidators: ClientValidators)

  /** The route's client metadata: each present schema projected to JSON Schema, `null` for an absent one. */
  function Describe(bodyModel: Option<ZodSchema>, queryModel: Option<ZodSchema>, toJsonSchema: ZodSchema -> JsonSchema)
    : (m: RouteMetadata)
    ensures m.clientValidators.body.None? <==> bodyModel.None?
    ensures m.clientValidators.query.None? <==> queryModel.None?
    ensures bodyModel.Some? ==> m.clientValidators.body.value == toJsonSchema(bodyModel.value)
    ensures queryModel.Some? ==> m.clientValidators.query.value == toJsonSchema(queryModel.value)
  {
    RouteMetadata(ClientValidators(
      if bodyModel.Some? then Some(toJsonSchema(bodyModel.value)) else None,
      if queryModel.Some? then Some(toJsonSchema(queryModel.value)) else None))
  }
}
