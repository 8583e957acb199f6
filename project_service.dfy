/** `ProjectService` over the `archon_projects` table: create, list, get
    and delete projects. The table lives in the service object as a map from
    row id to row; `nextId` is the rowid the next INSERT receives. */
module ProjectService {
  import opened PyDict
  import opened PyStr
  import opened SqlTable

  /** The `Project` dataclass. `id` is None until the row is inserted. */
  datatype Project = Project(
    title: string,
    githubRepo: Option<string>,
    createdAt: string,
    updatedAt: string,
    id: Option<int>)

  /** One row of `archon_projects`, as its SELECTs return it. */
  datatype ProjectRow = ProjectRow(
    id: int,
    title: string,
    githubRepo: Option<string>,
    createdAt: string,
    updatedAt: string)

  datatype ProjectError = TitleRequired | ProjectNotFound(projectId: int)
  {
    function Message(): string
    {
      match this
      case TitleRequired => "Project title is required"
      case ProjectNotFound(id) => "Project with ID " + IntToStr(id) + " not found"
    }
  }

  /** The `(ok, body)` pair every operation returns. */
  datatype Response<+T> = Success(body: T) | Failure(error: ProjectError)

  /** `{"projects": rows, "total_count": len(rows)}`. */
  datatype ProjectList = ProjectList(projects: seq<ProjectRow>, totalCount: int)

  /** `ORDER BY created_at DESC`: no row is created later than the one before it. */
  predicate NewestFirst(ps: seq<ProjectRow>)
  {
    forall i, j :: 0 <= i < j < |ps| ==> LexLe(ps[j].createdAt, ps[i].createdAt)
  }

  /** A row no older than any row of a newest-first list can lead it. */
  lemma PrependNewest(x: ProjectRow, rest: seq<ProjectRow>)
    requires NewestFirst(rest)
    requires forall y :: y in rest ==> LexLe(y.createdAt, x.createdAt)
    ensures NewestFirst([x] + rest)
  {
    var r := [x] + rest;
    forall i, j | 0 <= i < j < |r| ensures LexLe(r[j].createdAt, r[i].createdAt) {
      if i == 0 {
        assert r[j] in rest;
      } else {
        assert r[i] == rest[i - 1] && r[j] == rest[j - 1];
      }
    }
  }

  /** Every row of a newest-first list is no newer than a row newer than its head. */
  lemma BoundByHead(p: ProjectRow, ps: seq<ProjectRow>)
    requires NewestFirst(ps)
    requires ps == [] || LexLe(ps[0].createdAt, p.createdAt)
    ensures forall y :: y in ps ==> LexLe(y.createdAt, p.createdAt)
  {
    forall y | y in ps ensures LexLe(y.createdAt, p.createdAt) {
      var k :| 0 <= k < |ps| && ps[k] == y;
      if k > 0 {
        LexLeTransitive(y.createdAt, ps[0].createdAt, p.createdAt);
      }
    }
  }

  /** Inserting an older row into the tail keeps every row no newer than the head. */
  lemma BoundByOldHead(p: ProjectRow, ps: seq<ProjectRow>, rest: seq<ProjectRow>)
    requires NewestFirst(ps) && ps != []
    requires LexLe(p.createdAt, ps[0].createdAt)
    requires multiset(rest) == multiset(ps[1..]) + multiset{p}
    ensures forall y :: y in rest ==> LexLe(y.createdAt, ps[0].createdAt)
  {
    forall y | y in rest ensures LexLe(y.createdAt, ps[0].createdAt) {
      assert y in multiset(rest);
      if y != p {
        assert y in multiset(ps[1..]);
        var k :| 0 <= k < |ps[1..]| && ps[1..][k] == y;
        assert ps[k + 1] == y;
      }
    }
  }

  /** Places `p` into a list that is already newest-first, keeping it so. */
  function InsertNewestFirst(p: ProjectRow, ps: seq<ProjectRow>): (r: seq<ProjectRow>)
    requires NewestFirst(ps)
    ensures NewestFirst(r)
    ensures multiset(r) == multiset(ps) + multiset{p}
    ensures r[0] == p || (ps != [] && r[0] == ps[0])
  {
    if ps == [] || LexLe(ps[0].createdAt, p.createdAt) then
      BoundByHead(p, ps);
      PrependNewest(p, ps);
      [p] + ps
    else
      LexLeTotal(ps[0].createdAt, p.createdAt);
      var rest := InsertNewestFirst(p, ps[1..]);
      BoundByOldHead(p, ps, rest);
      PrependNewest(ps[0], rest);
      assert ps == [ps[0]] + ps[1..];
      [ps[0]] + rest
  }

  /** What `list_projects` has gathered after scanning the ids below `id`:
      rows only, each row below `id` once, newest first. */
  predicate ListedBelow(rows: Table<ProjectRow>, found: seq<ProjectRow>, id: int)
  {
    && NewestFirst(found)
    && (forall p :: p in found ==> p.id in rows && rows[p.id] == p && p.id < id)
    && (forall k :: k in rows && k < id ==> multiset(found)[rows[k]] == 1)
  }

  /** Scanning an id that holds a row inserts that row. */
  lemma ListedInsert(rows: Table<ProjectRow>, found: seq<ProjectRow>, id: int)
    requires ListedBelow(rows, found, id)
    requires id in rows && rows[id].id == id
    requires forall k :: k in rows ==> rows[k].id == k
    ensures ListedBelow(rows, InsertNewestFirst(rows[id], found), id + 1)
  {
    var row := rows[id];
    var found' := InsertNewestFirst(row, found);
    assert row !in found;
    forall p | p in found' ensures p.id in rows && rows[p.id] == p && p.id < id + 1 {
      assert p in multiset(found');
      if p != row {
        assert p in found;
      }
    }
    forall k | k in rows && k < id + 1 ensures multiset(found')[rows[k]] == 1 {
      if k < id {
        assert rows[k].id != row.id;
      }
    }
  }

  class ProjectService {
    /** The `created_at` and `updated_at` defaults of `Project`: each was
        read from the clock once, when the dataclass was defined, and every
        service in the process sees the same two values. */
    const createdAtDefault: string
    const updatedAtDefault: string
    var rows: Table<ProjectRow>
    var nextId: int

    /** Every row is stored under its own id, and ids below `nextId` are the
        only ones ever handed out. */
    ghost predicate Valid()
      reads this
    {
      && 1 <= nextId
      && forall id :: id in rows ==> 1 <= id < nextId && rows[id].id == id
    }

    /** A service over the table as it is found in the database, with the
        two clock readings taken when `Project` was defined. */
    constructor (classCreatedAt: string, classUpdatedAt: string, existing: Table<ProjectRow>, next: int)
      requires 1 <= next
      requires forall id :: id in existing ==> 1 <= id < next && existing[id].id == id
      ensures Valid() && rows == existing && nextId == next
      ensures createdAtDefault == classCreatedAt && updatedAtDefault == classUpdatedAt
    {
      createdAtDefault := classCreatedAt;
      updatedAtDefault := classUpdatedAt;
      rows := existing;
      nextId := next;
    }

    /** `create_project`. An empty title is refused and nothing is inserted.
        Otherwise one row is added under an id no row had; its title is the
        given one stripped of surrounding whitespace (so a title of spaces
        only is stored as ""), and both timestamps are the class defaults.
        The returned project is the inserted row with its id filled in. */
    method CreateProject(title: string, githubRepo: Option<string> := None) returns (r: Response<Project>)
      requires Valid()
      modifies this
      ensures Valid()
      ensures title == "" ==> r == Failure(TitleRequired) && rows == old(rows) && nextId == old(nextId)
      ensures title != "" ==>
                && r.Success? && r.body.id.Some?
                && r.body.id.value !in old(rows)
                && r.body == Project(Strip(title), githubRepo, createdAtDefault, updatedAtDefault, r.body.id)
                && rows == old(rows)[r.body.id.value := ProjectRow(r.body.id.value, Strip(title), githubRepo,
                                                                   createdAtDefault, updatedAtDefault)]
    {
      if title == "" {
        return Failure(TitleRequired);
      }
      var project := Project(Strip(title), githubRepo, createdAtDefault, updatedAtDefault, None);
      var rowId := nextId;
      rows := rows[rowId := ProjectRow(rowId, project.title, project.githubRepo, project.createdAt, project.updatedAt)];
      nextId := nextId + 1;
      project := project.(id := Some(rowId));
      return Success(project);
    }

    /** `list_projects`: every row exactly once, newest `created_at` first,
        and `total_count` is how many there are. */
    method ListProjects() returns (r: ProjectList)
      requires Valid()
      ensures r.totalCount == |r.projects|
      ensures NewestFirst(r.projects)
      ensures forall p :: p in r.projects ==> p.id in rows && rows[p.id] == p
      ensures forall id :: id in rows ==> multiset(r.projects)[rows[id]] == 1
    {
      var found: seq<ProjectRow> := [];
      var id := 1;
      while id < nextId
        invariant 1 <= id <= nextId
        invariant ListedBelow(rows, found, id)
      {
        if id in rows {
          ListedInsert(rows, found, id);
          found := InsertNewestFirst(rows[id], found);
        }
        id := id + 1;
      }
      return ProjectList(found, |found|);
    }

    /** `get_project`: the row with that id, or "not found". */
    method GetProject(projectId: int) returns (r: Response<ProjectRow>)
      requires Valid()
      ensures r.Success? <==> projectId in rows
      ensures r.Success? ==> r.body == rows[projectId] && r.body.id == projectId
      ensures r.Failure? ==> r.error == ProjectNotFound(projectId)
    {
      if projectId !in rows {
        return Failure(ProjectNotFound(projectId));
      }
      return Success(rows[projectId]);
    }

    /** `delete_project`: succeeds exactly when a row with that id existed
        (the DELETE's rowcount is non-zero). Afterwards the id is absent and
        every other row is as it was. */
    method DeleteProject(projectId: int) returns (r: Response<int>)
      requires Valid()
      modifies this
      ensures Valid() && nextId == old(nextId)
      ensures rows == old(rows) - {projectId}
      ensures projectId in old(rows) ==> r == Success(projectId)
      ensures projectId !in old(rows) ==> r == Failure(ProjectNotFound(projectId))
    {
      var (remaining, deleted) := DeleteWhereId(rows, projectId);
      rows := remaining;
      if deleted != 0 {
        return Success(projectId);
      }
      return Failure(ProjectNotFound(projectId));
    }
  }

  /** Two projects created through one service carry the same timestamps,
      the `Project` defaults read once when the class was defined. */
  method CreatedTogetherShareTimestamps(svc: ProjectService, title1: string, title2: string)
      returns (first: Response<Project>, second: Response<Project>)
    requires svc.Valid() && title1 != "" && title2 != ""
    modifies svc
    ensures first.Success? && second.Success?
    ensures first.body.createdAt == second.body.createdAt == svc.createdAtDefault
    ensures first.body.updatedAt == second.body.updatedAt == svc.updatedAtDefault
    ensures first.body.id != second.body.id
  {
    first := svc.CreateProject(title1);
    second := svc.CreateProject(title2);
  }
}
