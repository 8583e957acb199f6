/** `TaskService` over the `archon_tasks` table: create a task, list tasks,
    and change a task's status. The table lives in the service object as a
    map from row id to row; `nextId` is the rowid the next INSERT receives.
    Clock readings (`datetime.now().isoformat()`) are parameters. */
module TaskService {
  import opened PyDict
  import opened PyStr
  import opened SqlTable

  /** `VALID_STATUSES`. */
  const ValidStatuses: seq<string> := ["todo", "doing", "review", "done"]

  predicate IsValidStatus(status: string)
  {
    status in ValidStatuses
  }

  /** One row of `archon_tasks`. */
  datatype Task = Task(
    id: int,
    projectId: int,
    title: string,
    description: string,
    status: string,
    assignee: string,
    createdAt: string,
    updatedAt: string)

  datatype TaskError = InvalidStatus(status: string) | TaskNotFound(taskId: int)
  {
    function Message(): string
    {
      match this
      case InvalidStatus(s) => "Invalid status '" + s + "'"
      case TaskNotFound(id) => "Task with ID " + IntToStr(id) + " not found"
    }
  }

  /** The `(ok, body)` pair every operation returns. */
  datatype Response<+T> = Success(body: T) | Failure(error: TaskError)

  /** `{"task": {"id", "title", "status"}}` of a successful create. */
  datatype CreatedTask = CreatedTask(id: int, title: string, status: string)

  /** `{"task": {"id", "status"}}` of a successful status change. */
  datatype StatusChange = StatusChange(id: int, status: string)

  /** `{"tasks": rows, "total_count": len(rows)}`. */
  datatype TaskList = TaskList(tasks: seq<Task>, totalCount: int)

  /** `WHERE project_id = ?` when a project is given; every row otherwise. */
  predicate InProject(t: Task, projectId: Option<int>)
  {
    projectId.None? || t.projectId == projectId.value
  }

  /** What `list_tasks` has gathered after scanning the ids below `id`:
      rows of the project only, each matching row once, in rowid order. */
  predicate ListedBelow(rows: Table<Task>, found: seq<Task>, projectId: Option<int>, id: int)
  {
    && (forall t :: t in found ==> t.id in rows && rows[t.id] == t && InProject(t, projectId) && t.id < id)
    && (forall k :: k in rows && k < id && InProject(rows[k], projectId) ==> multiset(found)[rows[k]] == 1)
    && (forall i, j :: 0 <= i < j < |found| ==> found[i].id < found[j].id)
  }

  /** Scanning an id that holds no row of the project gathers nothing. */
  lemma ListedSkip(rows: Table<Task>, found: seq<Task>, projectId: Option<int>, id: int)
    requires ListedBelow(rows, found, projectId, id)
    requires !(id in rows && InProject(rows[id], projectId))
    ensures ListedBelow(rows, found, projectId, id + 1)
  {
  }

  /** Scanning an id that holds a row of the project appends that row. */
  lemma ListedAppend(rows: Table<Task>, found: seq<Task>, projectId: Option<int>, id: int)
    requires ListedBelow(rows, found, projectId, id)
    requires id in rows && InProject(rows[id], projectId) && rows[id].id == id
    requires forall k :: k in rows ==> rows[k].id == k
    ensures ListedBelow(rows, found + [rows[id]], projectId, id + 1)
  {
    var row := rows[id];
    var found' := found + [row];
    assert row !in found;
    assert multiset(found') == multiset(found) + multiset{row};
    forall t | t in found' ensures t.id in rows && rows[t.id] == t && InProject(t, projectId) && t.id < id + 1 {
      if t != row {
        assert t in found;
      }
    }
    forall k | k in rows && k < id + 1 && InProject(rows[k], projectId) ensures multiset(found')[rows[k]] == 1 {
      if k < id {
        assert rows[k].id != row.id;
      }
    }
  }

  class TaskService {
    var rows: Table<Task>
    var nextId: int

    /** Every row is stored under its own id, and ids below `nextId` are the
        only ones ever handed out. */
    ghost predicate Valid()
      reads this
    {
      && 1 <= nextId
      && forall id :: id in rows ==> 1 <= id < nextId && rows[id].id == id
    }

    /** A service over the table as it is found in the database. */
    constructor (existing: Table<Task>, next: int)
      requires 1 <= next
      requires forall id :: id in existing ==> 1 <= id < next && existing[id].id == id
      ensures Valid() && rows == existing && nextId == next
    {
      rows := existing;
      nextId := next;
    }

    /** `create_task`. A status outside `VALID_STATUSES` is refused and the
        table is left as it was. Otherwise exactly one row is added, under an
        id no row had, and its id, title and status are returned. The title
        is stored as given: it is not checked. */
    method CreateTask(
      projectId: int,
      title: string,
      clockCreated: string,
      clockUpdated: string,
      description: string := "",
      status: string := "todo",
      assignee: string := "User"
    ) returns (r: Response<CreatedTask>)
      requires Valid()
      modifies this
      ensures Valid()
      ensures !IsValidStatus(status) ==>
                r == Failure(InvalidStatus(status)) && rows == old(rows) && nextId == old(nextId)
      ensures IsValidStatus(status) ==>
                && r.Success?
                && r.body == CreatedTask(r.body.id, title, status)
                && r.body.id !in old(rows)
                && rows == old(rows)[r.body.id := Task(r.body.id, projectId, title, description, status,
                                                       assignee, clockCreated, clockUpdated)]
    {
      if !IsValidStatus(status) {
        return Failure(InvalidStatus(status));
      }
      var taskId := nextId;
      rows := rows[taskId := Task(taskId, projectId, title, description, status, assignee, clockCreated, clockUpdated)];
      nextId := nextId + 1;
      return Success(CreatedTask(taskId, title, status));
    }

    /** `list_tasks`: exactly the rows of the given project (every row when
        none is given), each once, in rowid order, and `total_count` is how
        many there are. */
    method ListTasks(projectId: Option<int> := None) returns (r: TaskList)
      requires Valid()
      ensures r.totalCount == |r.tasks|
      ensures forall t :: t in r.tasks ==> t.id in rows && rows[t.id] == t && InProject(t, projectId)
      ensures forall id :: id in rows && InProject(rows[id], projectId) ==> multiset(r.tasks)[rows[id]] == 1
      ensures forall i, j :: 0 <= i < j < |r.tasks| ==> r.tasks[i].id < r.tasks[j].id
    {
      var found: seq<Task> := [];
      var id := 1;
      while id < nextId
        invariant 1 <= id <= nextId
        invariant ListedBelow(rows, found, projectId, id)
      {
        if id in rows && InProject(rows[id], projectId) {
          ListedAppend(rows, found, projectId, id);
          found := found + [rows[id]];
        } else {
          ListedSkip(rows, found, projectId, id);
        }
        id := id + 1;
      }
      return TaskList(found, |found|);
    }

    /** `update_status`. An invalid status is refused and nothing changes;
        an id with no row (the UPDATE's rowcount is zero) is reported as not
        found and nothing changes. Otherwise only that row changes, and in it
        only `status` and `updated_at`. The row's current status plays no
        part: any valid status may replace any other. */
    method UpdateStatus(taskId: int, status: string, clock: string) returns (r: Response<StatusChange>)
      requires Valid()
      modifies this
      ensures Valid() && nextId == old(nextId)
      ensures !IsValidStatus(status) ==> r == Failure(InvalidStatus(status)) && rows == old(rows)
      ensures IsValidStatus(status) && taskId !in old(rows) ==>
                r == Failure(TaskNotFound(taskId)) && rows == old(rows)
      ensures IsValidStatus(status) && taskId in old(rows) ==>
                && r == Success(StatusChange(taskId, status))
                && rows == old(rows)[taskId := old(rows)[taskId].(status := status, updatedAt := clock)]
    {
      if !IsValidStatus(status) {
        return Failure(InvalidStatus(status));
      }
      var (updated, rowcount) := UpdateWhereId(rows, taskId, (t: Task) => t.(status := status, updatedAt := clock));
      rows := updated;
      if rowcount == 0 {
        return Failure(TaskNotFound(taskId));
      }
      return Success(StatusChange(taskId, status));
    }
  }

  /** A task that is done can be reopened: status changes follow no order. */
  method ReopenDoneTask(svc: TaskService, projectId: int, clock: string)
      returns (created: Response<CreatedTask>, reopened: Response<StatusChange>)
    requires svc.Valid()
    modifies svc
    ensures svc.Valid()
    ensures created.Success? && created.body.status == "done"
    ensures reopened == Success(StatusChange(created.body.id, "todo"))
    ensures created.body.id in svc.rows && svc.rows[created.body.id].status == "todo"
  {
    created := svc.CreateTask(projectId, "Ship it", clock, clock, status := "done");
    reopened := svc.UpdateStatus(created.body.id, "todo", clock);
  }
}
