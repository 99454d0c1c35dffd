/**
 * The request editor (RequestEditor.tsx): the text areas for params, headers
 * and body with the rules applied when one loses focus, and `handleSend`,
 * which saves the request, resolves its placeholders against the active
 * environment, sends it and records the answer as the request's last response.
 */
module RequestEditor {
  import opened Wrappers
  import opened Json
  import opened Model
  import opened Text
  import opened Substitution
  import opened Resolve
  import opened CollectionRunner
  import opened ProjectsStore

  /** What the response pane shows: nothing, a captured response, or `{ error: message }`. */
  datatype Shown = NoResponse | ShownStored(stored: StoredResponse) | ShownError(message: string)

  /** The outcome of leaving a JSON text area: the field's new value, or the text is rejected. */
  datatype BlurDecision = Replace(value: Json) | Reject

  /**
   * `handleParamsBlur`, `handleHeadersBlur` and `handleBodyBlur`: blank text
   * stores `blank` (`{}` for params and headers, `null` for the body), text that
   * parses stores what it parses to, and any other text is rejected.
   */
  function BlurDecide(text: string, blank: Json, codec: Codec): BlurDecision {
    if Trim(text) == [] then Replace(blank)
    else
      match codec.parse(text)
      case Ok(parsed) => Replace(parsed)
      case Err(_) => Reject
  }

  /**
   * Text is rejected exactly when it is not blank and does not parse; otherwise
   * the field gets the blank value or the parsed one. This unfolds the
   * definition case by case: a reading aid, not an independent partner.
   */
  lemma BlurCases(text: string, blank: Json, codec: Codec)
    ensures BlurDecide(text, blank, codec) == Reject <==> Trim(text) != [] && codec.parse(text).Err?
    ensures BlurDecide(text, blank, codec).Replace? ==>
      BlurDecide(text, blank, codec).value == if Trim(text) == [] then blank else codec.parse(text).value
  {
  }

  /**
   * The text a params or headers area is loaded with: indented JSON when the
   * value has keys, empty otherwise; `None` when `Object.keys` throws, for `null`.
   */
  function ObjectText(j: Json, codec: Codec): Option<string> {
    match KeyCount(j)
    case None => None
    case Some(n) => Some(if n > 0 then codec.pretty(j) else "")
  }

  /** The text the body area is loaded with: indented JSON when the body is truthy, empty otherwise. */
  function BodyText(b: Json, codec: Codec): string {
    if Truthy(b) then codec.pretty(b) else ""
  }

  /**
   * Leaving a params or headers area untouched stores the object it was loaded
   * with, when the codec is faithful and its indented text is never blank.
   */
  lemma ObjectTextKept(j: Json, codec: Codec)
    requires Faithful(codec) && WellFormed(j) && j.JObject?
    requires Trim(codec.pretty(j)) != []
    ensures ObjectText(j, codec).Some?
    ensures BlurDecide(ObjectText(j, codec).value, JObject([]), codec) == Replace(j)
  {
    if |j.fields| == 0 {
      assert j.fields == [];
    }
  }

  /**
   * Text that parses to `null`, left in the params or headers area, is stored
   * as `null`, and a stored `null` is a value the editor cannot load.
   */
  lemma NullStoredThenUnloadable(text: string, codec: Codec)
    requires Trim(text) != [] && codec.parse(text) == Ok(JNull)
    ensures BlurDecide(text, JObject([]), codec) == Replace(JNull)
    ensures ObjectText(JNull, codec).None?
  {
  }

  /**
   * Leaving the body area untouched keeps a truthy body, but turns a falsy one
   * (`false`, `0`, `""`) into `null`: it was loaded as empty text.
   */
  lemma BodyTextKept(b: Json, codec: Codec)
    requires Faithful(codec) && WellFormed(b)
    requires Trim(codec.pretty(b)) != []
    ensures BlurDecide(BodyText(b, codec), JNull, codec) == Replace(if Truthy(b) then b else JNull)
  {
  }

  /** The editor's state for the request it shows. */
  class Editor {
    const project: Project
    var localRequest: HttpRequest
    var response: Shown
    var loading: bool
    var activeEnv: EnvName
    var paramsText: string
    var headersText: string
    var bodyText: string
    var paramsError: bool
    var headersError: bool
    var bodyError: bool
    /** The loading effect threw: `Object.keys` of a `null` params or headers value. */
    var loadFailed: bool
    /** The requests handed to the transport, in order. */
    ghost var dispatched: seq<HttpRequest>

    /**
     * The initial state and the `useEffect` that loads a request into the
     * editor. The texts start empty; when `Object.keys` throws on the params
     * or the headers, the effect stops there and the texts not yet set stay empty.
     */
    constructor (project: Project, request: HttpRequest, codec: Codec)
      ensures this.project == project && localRequest == request
      ensures response == if request.lastResponse.Some? then ShownStored(request.lastResponse.value) else NoResponse
      ensures !loading && activeEnv == Dev
      ensures loadFailed <==> request.params == JNull || request.headers == JNull
      ensures paramsText == ObjectText(request.params, codec).GetOr("")
      ensures headersText == if request.params == JNull then "" else ObjectText(request.headers, codec).GetOr("")
      ensures bodyText == if loadFailed then "" else BodyText(request.body, codec)
      ensures !paramsError && !headersError && !bodyError
      ensures dispatched == []
    {
      this.project := project;
      localRequest := request;
      response := NoResponse;
      loading := false;
      activeEnv := Dev;
      paramsText := "";
      headersText := "";
      bodyText := "";
      paramsError := false;
      headersError := false;
      bodyError := false;
      dispatched := [];
      loadFailed := false;
      new;
      Load(request, codec);
    }

    /** The loading effect's statements in order, stopping at the first `Object.keys` that throws. */
    method Load(request: HttpRequest, codec: Codec)
      requires paramsText == "" && headersText == "" && bodyText == "" && !loadFailed
      modifies this`response, this`paramsText, this`headersText, this`bodyText, this`loadFailed
      ensures response == if request.lastResponse.Some? then ShownStored(request.lastResponse.value) else NoResponse
      ensures loadFailed <==> request.params == JNull || request.headers == JNull
      ensures paramsText == ObjectText(request.params, codec).GetOr("")
      ensures headersText == if request.params == JNull then "" else ObjectText(request.headers, codec).GetOr("")
      ensures bodyText == if loadFailed then "" else BodyText(request.body, codec)
    {
      response := if request.lastResponse.Some? then ShownStored(request.lastResponse.value) else NoResponse;
      var params := ObjectText(request.params, codec);
      if params.None? {
        loadFailed := true;
        return;
      }
      paramsText := params.value;
      var headers := ObjectText(request.headers, codec);
      if headers.None? {
        loadFailed := true;
        return;
      }
      headersText := headers.value;
      bodyText := BodyText(request.body, codec);
    }

    /** The environment toggle. */
    method SetActiveEnv(env: EnvName)
      modifies this`activeEnv
      ensures activeEnv == env
    {
      activeEnv := env;
    }

    /** Typing in the params area replaces its text and clears its error flag. */
    method EditParamsText(text: string)
      modifies this`paramsText, this`paramsError
      ensures paramsText == text && !paramsError
    {
      paramsText := text;
      paramsError := false;
    }

    /** Typing in the headers area replaces its text and clears its error flag. */
    method EditHeadersText(text: string)
      modifies this`headersText, this`headersError
      ensures headersText == text && !headersError
    {
      headersText := text;
      headersError := false;
    }

    /** Typing in the body area replaces its text and clears its error flag. */
    method EditBodyText(text: string)
      modifies this`bodyText, this`bodyError
      ensures bodyText == text && !bodyError
    {
      bodyText := text;
      bodyError := false;
    }

    /** `save`: write the local request into the project it belongs to. */
    method Save(store: Store) returns (r: Result<()>)
      requires store.Valid()
      modifies store
      ensures store.Valid()
      ensures project.id !in old(store.projects) ==> r == Err("Project not found") && store.projects == old(store.projects)
      ensures project.id in old(store.projects) ==>
        r == Ok(()) && store.projects == RequestSaved(old(store.projects), project.id, localRequest)
    {
      r := store.UpdateRequest(project.id, localRequest);
    }

    /** Replace the local request and `save` it. */
    method Commit(store: Store, request: HttpRequest)
      requires store.Valid()
      modifies this`localRequest, store
      ensures store.Valid() && localRequest == request
      ensures store.projects == SavedOrNot(old(store.projects), project.id, request)
    {
      localRequest := request;
      var _ := Save(store);
    }

    /** `handleParamsBlur`: on a new value the request is updated and saved; on rejected text only the error flag is set. */
    method HandleParamsBlur(store: Store, codec: Codec)
      requires store.Valid()
      modifies this`localRequest, this`paramsError, store
      ensures store.Valid()
      ensures var decision := BlurDecide(old(paramsText), JObject([]), codec);
        if decision.Reject? then
          paramsError && localRequest == old(localRequest) && store.projects == old(store.projects)
        else
          && !paramsError && localRequest == old(localRequest).(params := decision.value)
          && store.projects == SavedOrNot(old(store.projects), project.id, localRequest)
    {
      var decision := BlurDecide(paramsText, JObject([]), codec);
      if decision.Reject? {
        paramsError := true;
      } else {
        paramsError := false;
        Commit(store, localRequest.(params := decision.value));
      }
    }

    /** `handleHeadersBlur`, under the same rules as the params. */
    method HandleHeadersBlur(store: Store, codec: Codec)
      requires store.Valid()
      modifies this`localRequest, this`headersError, store
      ensures store.Valid()
      ensures var decision := BlurDecide(old(headersText), JObject([]), codec);
        if decision.Reject? then
          headersError && localRequest == old(localRequest) && store.projects == old(store.projects)
        else
          && !headersError && localRequest == old(localRequest).(headers := decision.value)
          && store.projects == SavedOrNot(old(store.projects), project.id, localRequest)
    {
      var decision := BlurDecide(headersText, JObject([]), codec);
      if decision.Reject? {
        headersError := true;
      } else {
        headersError := false;
        Commit(store, localRequest.(headers := decision.value));
      }
    }

    /** `handleBodyBlur`: blank text stores `null`. */
    method HandleBodyBlur(store: Store, codec: Codec)
      requires store.Valid()
      modifies this`localRequest, this`bodyError, store
      ensures store.Valid()
      ensures var decision := BlurDecide(old(bodyText), JNull, codec);
        if decision.Reject? then
          bodyError && localRequest == old(localRequest) && store.projects == old(store.projects)
        else
          && !bodyError && localRequest == old(localRequest).(body := decision.value)
          && store.projects == SavedOrNot(old(store.projects), project.id, localRequest)
    {
      var decision := BlurDecide(bodyText, JNull, codec);
      if decision.Reject? {
        bodyError := true;
      } else {
        bodyError := false;
        Commit(store, localRequest.(body := decision.value));
      }
    }

    /**
     * `handleSend`. The request is saved first; a missing project throws and
     * its message is shown. Otherwise the local request is resolved against the
     * active environment and sent as the one transport call; resolution and
     * transport failures show their message, and an answer is shown and stored,
     * with its timestamp `now` and the call's duration, as the last response of
     * the unsubstituted local request. Loading is cleared on every path.
     */
    method HandleSend(store: Store, codec: Codec, transport: Transport, now: int)
      requires store.Valid()
      requires LiteralEnv(EnvVars(project, activeEnv))
      modifies this`loading, this`response, this`dispatched, store
      ensures store.Valid() && !loading
      ensures project.id !in old(store.projects) ==>
        response == ShownError("Project not found") && store.projects == old(store.projects) && dispatched == old(dispatched)
      ensures project.id in old(store.projects) ==>
        var env := EnvVars(project, activeEnv);
        var afterSave := RequestSaved(old(store.projects), project.id, localRequest);
        && dispatched == old(dispatched) + Sent(localRequest, env, codec)
        && match ItemAttempt(0, localRequest, env, codec, transport)
          case Caught(m) => response == ShownError(m) && store.projects == afterSave
          case Responded(res, elapsed) =>
            var stored := StoredResponse(res, now, elapsed);
            && response == ShownStored(stored)
            && store.projects == RequestSaved(afterSave, project.id, localRequest.(lastResponse := Some(stored)))
    {
      loading := true;
      response := NoResponse;
      var saved := store.UpdateRequest(project.id, localRequest);
      if saved.Err? {
        response := ShownError(saved.message);
        loading := false;
        return;
      }
      var envVars := EnvVars(project, activeEnv);
      var resolved := ResolveRequest(localRequest, envVars, codec);
      if resolved.Err? {
        response := ShownError(resolved.message);
        loading := false;
        return;
      }
      dispatched := dispatched + [resolved.value];
      var exchange := transport(0, resolved.value);
      if exchange.Threw? {
        response := ShownError(exchange.message);
        loading := false;
        return;
      }
      var stored := StoredResponse(exchange.response, now, exchange.elapsed);
      response := ShownStored(stored);
      // the project is still stored, so this second update cannot throw
      var recorded := store.UpdateRequest(project.id, localRequest.(lastResponse := Some(stored)));
      loading := false;
    }
  }

  /** The store after `save` of `request` into project `projectId`: unchanged when the project is missing. */
  function SavedOrNot(projects: map<string, Project>, projectId: string, request: HttpRequest): map<string, Project> {
    if projectId in projects then RequestSaved(projects, projectId, request) else projects
  }

  /** The request handed to the transport: none when resolution throws. */
  function Sent(req: HttpRequest, env: Env, codec: Codec): seq<HttpRequest> {
    if Resolved(req, env, codec).Ok? then [Resolved(req, env, codec).value] else []
  }

  /**
   * The editor's test case: with the development environment holding
   * `API_URL=http://localhost:3000`, the request `{{API_URL}}/users` is handed
   * to the transport as `http://localhost:3000/users`.
   */
  lemma SendApiUrl(p: Project, req: HttpRequest, codec: Codec)
    requires EnvVars(p, Dev) == [("API_URL", "http://localhost:3000")]
    requires Faithful(codec) && codec.stringify(JObject([])) == "{}"
    requires req.url == "{{API_URL}}/users"
    requires req.headers == JObject([]) && req.params == JObject([]) && req.body == JNull
    ensures Sent(req, EnvVars(p, Dev), codec) == [req.(url := "http://localhost:3000/users")]
  {
    ResolvedApiUrl(req, codec);
  }
}
