/**
 * projectsStore.ts: the operations on the stored projects. The Dexie table is
 * a map from project id (its primary key) to project; every operation reads a
 * project, changes its `requests` and writes it back whole. `uuidv4()` and
 * `Date.now()` are parameters: `newId` arguments are fresh ids, `now` the clock.
 */
module ProjectsStore {
  import opened Wrappers
  import opened Json
  import opened Model

  // ---------------------------------------------------------------------
  // The list operations on `project.requests`
  // ---------------------------------------------------------------------

  /** `requests.findIndex(r => r.id === id)`: the first index with that id, or -1. */
  function FindIndex(reqs: seq<HttpRequest>, id: string): (k: int)
    ensures -1 <= k < |reqs|
    ensures k == -1 <==> forall j | 0 <= j < |reqs| :: reqs[j].id != id
    ensures k >= 0 ==> reqs[k].id == id && forall j | 0 <= j < k :: reqs[j].id != id
  {
    if reqs == [] then -1
    else if reqs[0].id == id then 0
    else
      var k := FindIndex(reqs[1..], id);
      if k == -1 then -1 else k + 1
  }

  /**
   * The projects after `updateRequest(projectId, request)` on a stored project:
   * the first request with the same id is replaced in place; with none, nothing is written.
   */
  function RequestSaved(projects: map<string, Project>, projectId: string, request: HttpRequest): (r: map<string, Project>)
    requires projectId in projects
    ensures r.Keys == projects.Keys
  {
    var p := projects[projectId];
    var index := FindIndex(p.requests, request.id);
    if index == -1 then projects
    else projects[projectId := p.(requests := p.requests[index := request])]
  }

  /** `requests.filter(r => r.id !== id)`. */
  function RemoveById(reqs: seq<HttpRequest>, id: string): (rest: seq<HttpRequest>)
    ensures |rest| <= |reqs|
    ensures forall j | 0 <= j < |rest| :: rest[j].id != id
  {
    if reqs == [] then []
    else if reqs[0].id == id then RemoveById(reqs[1..], id)
    else [reqs[0]] + RemoveById(reqs[1..], id)
  }

  /** The number of requests with the given id. */
  function CountId(reqs: seq<HttpRequest>, id: string): nat {
    if reqs == [] then 0 else (if reqs[0].id == id then 1 else 0) + CountId(reqs[1..], id)
  }

  /** Filtering works piecewise, so the kept requests stay in their original order. */
  lemma {:induction false} RemoveByIdAppend(a: seq<HttpRequest>, b: seq<HttpRequest>, id: string)
    ensures RemoveById(a + b, id) == RemoveById(a, id) + RemoveById(b, id)
  {
    if a != [] {
      assert (a + b)[1..] == a[1..] + b;
      RemoveByIdAppend(a[1..], b, id);
    } else {
      assert a + b == b;
    }
  }

  /** Exactly the requests with the id are dropped: every other one is kept. */
  lemma {:induction false} RemoveByIdKeepsOthers(reqs: seq<HttpRequest>, id: string)
    ensures |RemoveById(reqs, id)| == |reqs| - CountId(reqs, id)
    ensures forall j | 0 <= j < |reqs| && reqs[j].id != id :: reqs[j] in RemoveById(reqs, id)
  {
    if reqs != [] {
      RemoveByIdKeepsOthers(reqs[1..], id);
      forall j | 1 <= j < |reqs| && reqs[j].id != id
        ensures reqs[j] in RemoveById(reqs, id)
      {
        assert reqs[j] == reqs[1..][j - 1];
      }
    }
  }

  /** Filtering out an id no request has changes nothing. */
  lemma {:induction false} RemoveByIdAbsent(reqs: seq<HttpRequest>, id: string)
    requires FindIndex(reqs, id) == -1
    ensures RemoveById(reqs, id) == reqs
  {
    if reqs != [] {
      RemoveByIdAbsent(reqs[1..], id);
    }
  }

  /** The request `addRequest` creates. */
  function NewRequest(id: string, name: string, now: int): HttpRequest {
    HttpRequest(id, name, "GET", "", JObject([]), JObject([]), JNull, now, None, None)
  }

  /** The copy `duplicateRequest` appends: `{ ...original, id, name: \`${name} (Copy)\`, createdAt }`. */
  function Duplicate(original: HttpRequest, id: string, now: int): HttpRequest {
    original.(id := id, name := original.name + " (Copy)", createdAt := now)
  }

  /** `addProject`'s project: no requests, empty `dev` and `production`; the source's literal has no `folders`, which its readers treat as none. */
  function NewProject(id: string, name: string): Project {
    Project(id, name, [], [], Some(Environments([], [])))
  }

  /** The fields of a `Partial<Project>` that the application passes to `updateProject`. */
  datatype ProjectPatch = ProjectPatch(name: Option<string>, environments: Option<Environments>)

  /** Dexie's `update`: every field the patch gives overwrites the stored one. */
  function ApplyPatch(p: Project, patch: ProjectPatch): Project {
    p.(name := patch.name.GetOr(p.name),
       environments := if patch.environments.Some? then patch.environments else p.environments)
  }

  /** Each request of an imported project under its new id, every other field copied. */
  function Reidentify(reqs: seq<HttpRequest>, ids: seq<string>): (out: seq<HttpRequest>)
    requires |ids| == |reqs|
    ensures |out| == |reqs|
    ensures forall j | 0 <= j < |reqs| :: out[j] == reqs[j].(id := ids[j])
  {
    seq(|reqs|, j requires 0 <= j < |reqs| => reqs[j].(id := ids[j]))
  }

  /** Ids that are pairwise different. */
  predicate Distinct(ids: seq<string>) {
    forall a, b | 0 <= a < b < |ids| :: ids[a] != ids[b]
  }

  /** The arguments `uuidv4()` would supply for importing `ps`: one id per project, pairwise different, and one per request. */
  predicate ImportIds(ps: seq<Project>, projectIds: seq<string>, requestIds: seq<seq<string>>) {
    && |projectIds| == |ps| && |requestIds| == |ps|
    && (forall i | 0 <= i < |ps| :: |requestIds[i]| == |ps[i].requests|)
    && Distinct(projectIds)
  }

  /** `projectsWithNewIds`: the imported projects, each with its new id and re-identified requests. */
  function Imported(ps: seq<Project>, projectIds: seq<string>, requestIds: seq<seq<string>>): (out: seq<Project>)
    requires ImportIds(ps, projectIds, requestIds)
    ensures |out| == |ps|
  {
    seq(|ps|, i requires 0 <= i < |ps| =>
      ps[i].(id := projectIds[i], requests := Reidentify(ps[i].requests, requestIds[i])))
  }

  /**
   * Import keeps the number of projects and of each project's requests; each
   * gets its new id and keeps every other field, folders and environments included.
   */
  lemma ImportedCopies(ps: seq<Project>, projectIds: seq<string>, requestIds: seq<seq<string>>)
    requires ImportIds(ps, projectIds, requestIds)
    ensures var out := Imported(ps, projectIds, requestIds);
      forall i | 0 <= i < |ps| ::
        && out[i].id == projectIds[i]
        && out[i] == ps[i].(id := out[i].id, requests := out[i].requests)
        && |out[i].requests| == |ps[i].requests|
        && forall j | 0 <= j < |ps[i].requests| ::
             out[i].requests[j] == ps[i].requests[j].(id := requestIds[i][j])
  {
  }

  /** The ids of the given projects. */
  function IdsOf(ps: seq<Project>): set<string> {
    set i | 0 <= i < |ps| :: ps[i].id
  }

  /** `bulkAdd`: every record stored under its own id. */
  function AddAll(m: map<string, Project>, ps: seq<Project>): map<string, Project>
    decreases |ps|
  {
    if ps == [] then m else AddAll(m[ps[0].id := ps[0]], ps[1..])
  }

  /** After `bulkAdd` of records with distinct fresh ids, each is stored under its id and nothing else changed. */
  lemma {:induction false} AddAllStores(m: map<string, Project>, ps: seq<Project>)
    requires forall a, b | 0 <= a < b < |ps| :: ps[a].id != ps[b].id
    ensures var m' := AddAll(m, ps);
      && m'.Keys == m.Keys + IdsOf(ps)
      && (forall i | 0 <= i < |ps| :: m'[ps[i].id] == ps[i])
      && (forall id | id in m && (forall i | 0 <= i < |ps| :: ps[i].id != id) :: m'[id] == m[id])
    decreases |ps|
  {
    if ps != [] {
      AddAllStores(m[ps[0].id := ps[0]], ps[1..]);
      var m' := AddAll(m, ps);
      assert IdsOf(ps) == {ps[0].id} + IdsOf(ps[1..]) by {
        forall i | 0 <= i < |ps|
          ensures ps[i].id in {ps[0].id} + IdsOf(ps[1..])
        {
          if i > 0 {
            assert ps[i] == ps[1..][i - 1];
          }
        }
      }
      forall i | 0 <= i < |ps|
        ensures m'[ps[i].id] == ps[i]
      {
        if i > 0 {
          assert ps[i] == ps[1..][i - 1];
        }
      }
    }
  }

  // ---------------------------------------------------------------------
  // The store
  // ---------------------------------------------------------------------

  class Store {
    /** The `projects` table, by primary key. */
    var projects: map<string, Project>

    /** Every project is stored under its own id. */
    predicate Valid()
      reads this
    {
      forall id | id in projects :: projects[id].id == id
    }

    constructor ()
      ensures projects == map[] && Valid()
    {
      projects := map[];
    }

    /** `addProject`, given the fresh id `uuidv4()` returns. */
    method AddProject(name: string, newId: string) returns (project: Project)
      requires Valid() && newId !in projects
      modifies this
      ensures Valid()
      ensures project == NewProject(newId, name)
      ensures projects == old(projects)[newId := project]
    {
      project := NewProject(newId, name);
      projects := projects[newId := project];
    }

    /** `deleteProject`. */
    method DeleteProject(id: string)
      requires Valid()
      modifies this
      ensures Valid()
      ensures projects == old(projects) - {id}
    {
      projects := projects - {id};
    }

    /** `updateProject`: Dexie's `update` changes nothing when no project has the id. */
    method UpdateProject(id: string, patch: ProjectPatch)
      requires Valid()
      modifies this
      ensures Valid()
      ensures projects == if id in old(projects) then old(projects)[id := ApplyPatch(old(projects)[id], patch)] else old(projects)
    {
      if id in projects {
        projects := projects[id := ApplyPatch(projects[id], patch)];
      }
    }

    /** `addRequest`: append a new GET request to the project's own requests. */
    method AddRequest(projectId: string, requestName: string, newId: string, now: int) returns (r: Result<HttpRequest>)
      requires Valid()
      modifies this
      ensures Valid()
      ensures projectId !in old(projects) ==> r == Err("Project not found") && projects == old(projects)
      ensures projectId in old(projects) ==>
        var p := old(projects)[projectId];
        && r == Ok(NewRequest(newId, requestName, now))
        && projects == old(projects)[projectId := p.(requests := p.requests + [r.value])]
    {
      if projectId !in projects {
        return Err("Project not found");
      }
      var project := projects[projectId];
      var newRequest := NewRequest(newId, requestName, now);
      project := project.(requests := project.requests + [newRequest]);
      projects := projects[projectId := project];
      r := Ok(newRequest);
    }

    /** `updateRequest`: overwrite the first request with the same id in place; with none, write nothing. */
    method UpdateRequest(projectId: string, request: HttpRequest) returns (r: Result<()>)
      requires Valid()
      modifies this
      ensures Valid()
      ensures projectId !in old(projects) ==> r == Err("Project not found") && projects == old(projects)
      ensures projectId in old(projects) ==> r == Ok(()) && projects == RequestSaved(old(projects), projectId, request)
    {
      if projectId !in projects {
        return Err("Project not found");
      }
      var project := projects[projectId];
      var index := FindIndex(project.requests, request.id);
      if index != -1 {
        project := project.(requests := project.requests[index := request]);
        projects := projects[projectId := project];
      }
      r := Ok(());
    }

    /** `deleteRequest`: keep the project's requests with another id. */
    method DeleteRequest(projectId: string, requestId: string) returns (r: Result<()>)
      requires Valid()
      modifies this
      ensures Valid()
      ensures projectId !in old(projects) ==> r == Err("Project not found") && projects == old(projects)
      ensures projectId in old(projects) ==>
        var p := old(projects)[projectId];
        && r == Ok(())
        && projects == old(projects)[projectId := p.(requests := RemoveById(p.requests, requestId))]
    {
      if projectId !in projects {
        return Err("Project not found");
      }
      var project := projects[projectId];
      project := project.(requests := RemoveById(project.requests, requestId));
      projects := projects[projectId := project];
      r := Ok(());
    }

    /** `duplicateRequest`: append a copy of the first request with the id, under a fresh id. */
    method DuplicateRequest(projectId: string, requestId: string, newId: string, now: int) returns (r: Result<HttpRequest>)
      requires Valid()
      modifies this
      ensures Valid()
      ensures projectId !in old(projects) ==> r == Err("Project not found") && projects == old(projects)
      ensures projectId in old(projects) ==>
        var p := old(projects)[projectId];
        var index := FindIndex(p.requests, requestId);
        && (index == -1 ==> r == Err("Request not found") && projects == old(projects))
        && (index != -1 ==>
              && r == Ok(Duplicate(p.requests[index], newId, now))
              && projects == old(projects)[projectId := p.(requests := p.requests + [r.value])])
    {
      if projectId !in projects {
        return Err("Project not found");
      }
      var project := projects[projectId];
      var index := FindIndex(project.requests, requestId);
      if index == -1 {
        return Err("Request not found");
      }
      var duplicated := Duplicate(project.requests[index], newId, now);
      project := project.(requests := project.requests + [duplicated]);
      projects := projects[projectId := project];
      r := Ok(duplicated);
    }

    /** `importProjects`: store every imported project under its fresh id. */
    method ImportProjects(ps: seq<Project>, projectIds: seq<string>, requestIds: seq<seq<string>>)
      requires Valid() && ImportIds(ps, projectIds, requestIds)
      requires forall i | 0 <= i < |projectIds| :: projectIds[i] !in projects
      modifies this
      ensures Valid()
      ensures projects == AddAll(old(projects), Imported(ps, projectIds, requestIds))
      ensures projects.Keys == old(projects).Keys + (set i | 0 <= i < |ps| :: projectIds[i])
      ensures forall i | 0 <= i < |ps| :: projects[projectIds[i]] == Imported(ps, projectIds, requestIds)[i]
      ensures forall id | id in old(projects) :: projects[id] == old(projects)[id]
    {
      var withNewIds := Imported(ps, projectIds, requestIds);
      AddAllStores(projects, withNewIds);
      assert IdsOf(withNewIds) == set i | 0 <= i < |ps| :: projectIds[i] by {
        forall i | 0 <= i < |ps|
          ensures withNewIds[i].id == projectIds[i]
        {
        }
      }
      projects := AddAll(projects, withNewIds);
    }
  }

  /** A freshly added request sits at the end, after the untouched earlier requests. */
  lemma AddRequestAppends(p: Project, newId: string, name: string, now: int)
    ensures var reqs := p.(requests := p.requests + [NewRequest(newId, name, now)]).requests;
      && |reqs| == |p.requests| + 1
      && reqs[..|p.requests|] == p.requests
      && reqs[|p.requests|].httpMethod == "GET" && reqs[|p.requests|].url == ""
      && reqs[|p.requests|].headers == JObject([]) && reqs[|p.requests|].params == JObject([])
      && reqs[|p.requests|].body == JNull
  {
    assert (p.requests + [NewRequest(newId, name, now)])[..|p.requests|] == p.requests;
  }

  /** Replacing the first match changes that one slot: later requests with the same id keep their old value. */
  lemma UpdateReplacesFirstOnly(reqs: seq<HttpRequest>, request: HttpRequest)
    requires FindIndex(reqs, request.id) != -1
    ensures var k := FindIndex(reqs, request.id);
      var out := reqs[k := request];
      && |out| == |reqs| && out[k] == request
      && (forall j | 0 <= j < |reqs| && j != k :: out[j] == reqs[j])
      && (forall j | 0 <= j < k :: reqs[j].id != request.id)
  {
  }

  /** The duplicate differs from its original only in id, name and creation time. */
  lemma DuplicateCopies(original: HttpRequest, newId: string, now: int)
    ensures var d := Duplicate(original, newId, now);
      && d.id == newId && d.name == original.name + " (Copy)" && d.createdAt == now
      && d.(id := original.id, name := original.name, createdAt := original.createdAt) == original
  {
  }
}
