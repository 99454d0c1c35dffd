/**
 * The persisted entities of the application (requests, folders, projects and
 * their two environments) and the record the HTTP transport answers with.
 */
module Model {
  import opened Wrappers
  import opened Json

  /** A `Record<string, string>`: its entries in insertion order, keys distinct. */
  type Env = seq<(string, string)>

  /** The two environments every project carries. */
  datatype Environments = Environments(dev: Env, production: Env)

  /** The environment selector of the editor and of the collection runner. */
  datatype EnvName = Dev | Production

  /** What the transport resolves with: an `error` string for a failure before any HTTP answer, otherwise the HTTP status. */
  datatype Response = Response(
    error: Option<string>,
    status: Option<int>,
    statusText: Option<string>,
    data: Json,
    headers: Json)

  /** A response together with the moment it was captured and the time the call took (milliseconds). */
  datatype StoredResponse = StoredResponse(response: Response, timestamp: int, duration: int)

  datatype HttpRequest = HttpRequest(
    id: string,
    name: string,
    httpMethod: string,  // the source field `method`
    url: string,
    headers: Json,
    params: Json,
    body: Json,
    createdAt: int,
    lastResponse: Option<StoredResponse>,
    expectedTypes: Option<string>)

  datatype Folder = Folder(id: string, name: string, requests: seq<HttpRequest>, isOpen: Option<bool>)

  datatype Project = Project(
    id: string,
    name: string,
    requests: seq<HttpRequest>,
    folders: seq<Folder>,
    environments: Option<Environments>)

  /** `project.environments?.[name] || {}`: the variables of the chosen environment, none when the project has no environments. */
  function EnvVars(p: Project, name: EnvName): Env {
    match p.environments
    case None => []
    case Some(envs) => if name == Dev then envs.dev else envs.production
  }

  /** One transport call: it either resolves with a response (and the milliseconds it took) or throws. */
  datatype Exchange = Answered(response: Response, elapsed: int) | Threw(message: string)

  /**
   * The network, as an oracle: the outcome of the `n`-th transport call of an
   * operation, given the request actually sent.
   */
  type Transport = (nat, HttpRequest) -> Exchange
}
