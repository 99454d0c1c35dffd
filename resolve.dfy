/**
 * The request-resolution pipeline of `handleSend` (RequestEditor.tsx) and of
 * `runAll` (CollectionRunnerModal.tsx), identical in both: on a deep copy of
 * the request, the URL is substituted as text; headers and params are
 * serialised to JSON text, substituted and parsed back; the body likewise,
 * but only when it is truthy. A parse failure throws, and the message is
 * what the callers catch.
 */
module Resolve {
  import opened Wrappers
  import opened Json
  import opened Model
  import opened Text
  import opened Substitution

  /** `JSON.parse(substituteVariables(JSON.stringify(j), env))`. */
  function SubstituteJson(j: Json, env: Env, codec: Codec): Result<Json> {
    codec.parse(Substitute(codec.stringify(j), env))
  }

  /** The request that is handed to the transport, or the message of the exception that stopped resolution. */
  function Resolved(req: HttpRequest, env: Env, codec: Codec): Result<HttpRequest> {
    var url := Substitute(req.url, env);
    match SubstituteJson(req.headers, env, codec)
    case Err(m) => Err(m)
    case Ok(headers) =>
      match SubstituteJson(req.params, env, codec)
      case Err(m) => Err(m)
      case Ok(params) =>
        if !Truthy(req.body) then Ok(req.(url := url, headers := headers, params := params))
        else
          match SubstituteJson(req.body, env, codec)
          case Err(m) => Err(m)
          case Ok(body) => Ok(req.(url := url, headers := headers, params := params, body := body))
  }

  /** The source's step-by-step assignments to `requestToSend`. */
  method ResolveRequest(request: HttpRequest, env: Env, codec: Codec) returns (r: Result<HttpRequest>)
    requires LiteralEnv(env)
    ensures r == Resolved(request, env, codec)
  {
    // JSON.parse(JSON.stringify(request)): the copy is a value, so later writes cannot reach `request`
    var toSend := request;
    var url := SubstituteVariables(toSend.url, env);
    toSend := toSend.(url := url);

    var headersText := SubstituteVariables(codec.stringify(toSend.headers), env);
    var headers := codec.parse(headersText);
    if headers.Err? {
      return Err(headers.message);
    }
    toSend := toSend.(headers := headers.value);

    var paramsText := SubstituteVariables(codec.stringify(toSend.params), env);
    var params := codec.parse(paramsText);
    if params.Err? {
      return Err(params.message);
    }
    toSend := toSend.(params := params.value);

    if Truthy(toSend.body) {
      var bodyText := SubstituteVariables(codec.stringify(toSend.body), env);
      var body := codec.parse(bodyText);
      if body.Err? {
        return Err(body.message);
      }
      toSend := toSend.(body := body.value);
    }
    r := Ok(toSend);
  }

  /**
   * Only the URL, headers, params and body of the copy may change; the URL is
   * substituted as text, and a falsy body (`null` in particular) is sent as it is.
   * This unfolds the definition case by case: a reading aid, not an independent partner.
   */
  lemma ResolvedChangesOnlyTemplates(req: HttpRequest, env: Env, codec: Codec)
    requires Resolved(req, env, codec).Ok?
    ensures var sent := Resolved(req, env, codec).value;
      && sent == req.(url := sent.url, headers := sent.headers, params := sent.params, body := sent.body)
      && sent.url == Substitute(req.url, env)
      && Ok(sent.headers) == SubstituteJson(req.headers, env, codec)
      && Ok(sent.params) == SubstituteJson(req.params, env, codec)
      && (Truthy(req.body) ==> Ok(sent.body) == SubstituteJson(req.body, env, codec))
      && (!Truthy(req.body) ==> sent.body == req.body)
  {
  }

  /**
   * Resolution throws exactly when re-parsing the substituted headers, params
   * or (truthy) body fails, with the message of the first failure in that order.
   * This unfolds the definition case by case: a reading aid, not an independent partner.
   */
  lemma ResolvedFailure(req: HttpRequest, env: Env, codec: Codec)
    ensures Resolved(req, env, codec).Err? <==>
      || SubstituteJson(req.headers, env, codec).Err?
      || SubstituteJson(req.params, env, codec).Err?
      || (Truthy(req.body) && SubstituteJson(req.body, env, codec).Err?)
    ensures SubstituteJson(req.headers, env, codec).Err? ==>
      Resolved(req, env, codec) == Err(SubstituteJson(req.headers, env, codec).message)
  {
  }

  /**
   * When none of the environment's placeholders occurs in the URL or in the
   * JSON text of the headers, params and (truthy) body, and the codec parses
   * back what it serialises, the request is sent exactly as stored.
   */
  lemma ResolvedUnaffected(req: HttpRequest, env: Env, codec: Codec)
    requires Faithful(codec)
    requires WellFormed(req.headers) && WellFormed(req.params) && WellFormed(req.body)
    requires forall k | 0 <= k < |env| :: !Contains(req.url, Placeholder(env[k].0))
    requires forall k | 0 <= k < |env| :: !Contains(codec.stringify(req.headers), Placeholder(env[k].0))
    requires forall k | 0 <= k < |env| :: !Contains(codec.stringify(req.params), Placeholder(env[k].0))
    requires Truthy(req.body) ==> forall k | 0 <= k < |env| :: !Contains(codec.stringify(req.body), Placeholder(env[k].0))
    ensures Resolved(req, env, codec) == Ok(req)
  {
    SubstituteUnaffected(req.url, env);
    SubstituteUnaffected(codec.stringify(req.headers), env);
    SubstituteUnaffected(codec.stringify(req.params), env);
    if Truthy(req.body) {
      SubstituteUnaffected(codec.stringify(req.body), env);
    }
  }

  /** With an empty environment every field of the request is sent unchanged. */
  lemma ResolvedEmptyEnv(req: HttpRequest, codec: Codec)
    requires Faithful(codec)
    requires WellFormed(req.headers) && WellFormed(req.params) && WellFormed(req.body)
    ensures Resolved(req, [], codec) == Ok(req)
  {
    ResolvedUnaffected(req, [], codec);
  }

  /**
   * The editor's test case: a GET of `{{API_URL}}/users` with empty headers and
   * params and a null body is sent to `http://localhost:3000/users`.
   */
  lemma ResolvedApiUrl(req: HttpRequest, codec: Codec)
    requires Faithful(codec) && codec.stringify(JObject([])) == "{}"
    requires req.url == "{{API_URL}}/users"
    requires req.headers == JObject([]) && req.params == JObject([]) && req.body == JNull
    ensures Resolved(req, [("API_URL", "http://localhost:3000")], codec)
         == Ok(req.(url := "http://localhost:3000/users"))
  {
    var env := [("API_URL", "http://localhost:3000")];
    SubstituteApiUrl();
    assert WellFormed(JObject([]));
    SubstituteUnaffected("{}", env);
  }
}
