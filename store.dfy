/** The in-memory task table of marj.py and the bodies of its five request
    handlers. The module-level list `task_db` becomes the field `tasks` of a
    `TaskStore`; a handler that writes a field of a found record replaces the
    record at the position `FindTaskById` returned. Errors that the source
    raises as HTTP exceptions are returned as `Response` values. */
module Store {
  import opened Text
  import opened Tasks

  /** What a handler answers: the `data` of a success, the confirmation of a
      delete, or one of the two error kinds with its message. */
  datatype Response =
    | Ok(task: Task)
    | Deleted(message: string)
    | NotFound(error: string)
    | Invalid(error: string)

  const TaskNotFound := "Task not found"
  const TitleOrDescEmpty := "Task title and description cannot be empty"
  const TitleEmpty := "Task title cannot be empty"
  const DescEmpty := "Task description cannot be empty"

  /** The confirmation of a delete (marj.py:95): the id in decimal between a
      fixed prefix and a fixed suffix, from where it can be read back. */
  function DeletedMessage(id: int): (m: string)
    ensures |m| > 26 && m[..5] == "Task " && m[|m| - 21..] == " deleted successfully"
    ensures m[5..|m| - 21] == IntToDecimal(id)
    ensures ParseInt(m[5..|m| - 21]) == id
  {
    assert ("Task " + IntToDecimal(id) + " deleted successfully")[5..|IntToDecimal(id)| + 5] == IntToDecimal(id);
    IntRoundTrip(id);
    "Task " + IntToDecimal(id) + " deleted successfully"
  }

  /** Two deletes of different ids never confirm with the same message. */
  lemma DeletedMessageInjective(m: int, n: int)
    requires DeletedMessage(m) == DeletedMessage(n)
    ensures m == n
  {
  }

  class TaskStore {
    /** `task_db`, in insertion order. */
    var tasks: seq<Task>

    ghost predicate Valid()
      reads this
    {
      ValidTable(tasks)
    }

    /** The table as the process starts: the one seed record (marj.py:7-9). */
    constructor ()
      ensures tasks == [Seed] && Valid()
    {
      tasks := [Seed];
    }

    /** `find_task_by_id`: a scan from the front that stops at the first record
        with the id; the position stands for the record reference. */
    method FindTaskById(id: int) returns (r: Option<nat>)
      ensures r == Lookup(tasks, id)
    {
      var i := 0;
      while i < |tasks|
        invariant i <= |tasks|
        invariant forall j :: 0 <= j < i ==> tasks[j].id != id
      {
        if tasks[i].id == id {
          return Some(i);
        }
        i := i + 1;
      }
      return None;
    }

    /** `get_task`: the record with the id, or NotFound. */
    method GetTask(id: int) returns (r: Response)
      ensures r.Ok? <==> !Absent(tasks, id)
      ensures r.Ok? ==> r.task.id == id && r.task == tasks[Lookup(tasks, id).value]
      ensures !r.Ok? ==> r == NotFound(TaskNotFound)
    {
      var found := FindTaskById(id);
      if found.Some? {
        return Ok(tasks[found.value]);
      }
      return NotFound(TaskNotFound);
    }

    /** `create_task`: rejects a blank title or description; otherwise appends
        a record with the next id and answers it. */
    method CreateTask(title: string, desc: string, isFinished: bool := false) returns (r: Response)
      modifies this
      ensures IsBlank(title) || IsBlank(desc) ==>
        r == Invalid(TitleOrDescEmpty) && tasks == old(tasks)
      ensures !IsBlank(title) && !IsBlank(desc) ==>
        r == Ok(Task(NextId(old(tasks)), title, desc, isFinished)) &&
        tasks == old(tasks) + [r.task]
      ensures r.Ok? ==> Lookup(tasks, r.task.id) == Some(|old(tasks)|)
      ensures old(Valid()) ==> Valid()
    {
      if IsBlank(title) || IsBlank(desc) {
        return Invalid(TitleOrDescEmpty);
      }
      var newTask := Task(NextId(tasks), title, desc, isFinished);
      if Valid() {
        AppendFresh(tasks, newTask);
      }
      LookupAppended(tasks, newTask);
      tasks := tasks + [newTask];
      return Ok(newTask);
    }

    /** `update_task`: writes the supplied fields of the found record one at a
        time. The title is checked and written before the description is
        checked, so a blank description is reported after a valid title has
        already been stored. */
    method UpdateTask(id: int, title: Option<string>, desc: Option<string>, isFinished: Option<bool>)
      returns (r: Response)
      modifies this
      ensures match Lookup(old(tasks), id)
        case None => r == NotFound(TaskNotFound) && tasks == old(tasks)
        case Some(i) =>
          var t := old(tasks)[i];
          var titled := t.(title := title.GetOr(t.title));
          if title.Some? && IsBlank(title.value) then
            r == Invalid(TitleEmpty) && tasks == old(tasks)
          else if desc.Some? && IsBlank(desc.value) then
            r == Invalid(DescEmpty) && tasks == old(tasks)[i := titled]
          else
            tasks == old(tasks)[i := titled.(desc := desc.GetOr(t.desc),
                                             isFinished := isFinished.GetOr(t.isFinished))] &&
            r == Ok(tasks[i])
      ensures forall k :: Lookup(tasks, k) == Lookup(old(tasks), k)
      ensures old(Valid()) ==> Valid()
    {
      var found := FindTaskById(id);
      if found.None? {
        return NotFound(TaskNotFound);
      }
      var i := found.value;
      ghost var before := tasks;
      var task := tasks[i];
      if title.Some? {
        if IsBlank(title.value) {
          return Invalid(TitleEmpty);
        }
        task := task.(title := title.value);
        tasks := tasks[i := task];
      }
      assert tasks == before[i := task];
      if desc.Some? {
        if IsBlank(desc.value) {
          UpdateKeepsLookups(before, i, task);
          return Invalid(DescEmpty);
        }
        task := task.(desc := desc.value);
        tasks := tasks[i := task];
      }
      assert tasks == before[i := task];
      if isFinished.Some? {
        task := task.(isFinished := isFinished.value);
        tasks := tasks[i := task];
      }
      assert tasks == before[i := task];
      UpdateKeepsLookups(before, i, task);
      return Ok(task);
    }

    /** `replace_task`: overwrites title, description and flag of the found
        record, with no blank check; the id stays. */
    method ReplaceTask(id: int, title: string, desc: string, isFinished: bool) returns (r: Response)
      modifies this
      ensures match Lookup(old(tasks), id)
        case None => r == NotFound(TaskNotFound) && tasks == old(tasks)
        case Some(i) => tasks == old(tasks)[i := Task(id, title, desc, isFinished)] && r == Ok(tasks[i])
      ensures forall k :: Lookup(tasks, k) == Lookup(old(tasks), k)
      ensures old(Valid()) ==> Valid()
    {
      var found := FindTaskById(id);
      if found.None? {
        return NotFound(TaskNotFound);
      }
      var i := found.value;
      ghost var before := tasks;
      tasks := tasks[i := tasks[i].(title := title)];
      tasks := tasks[i := tasks[i].(desc := desc)];
      tasks := tasks[i := tasks[i].(isFinished := isFinished)];
      UpdateKeepsLookups(before, i, tasks[i]);
      return Ok(tasks[i]);
    }

    /** `delete_task`: takes the found record out of the table and confirms. */
    method DeleteTask(id: int) returns (r: Response)
      modifies this
      ensures match Lookup(old(tasks), id)
        case None => r == NotFound(TaskNotFound) && tasks == old(tasks)
        case Some(i) => tasks == RemoveAt(old(tasks), i) && r == Deleted(DeletedMessage(id))
      ensures old(Valid()) ==> Valid() && Lookup(tasks, id) == None
    {
      var found := FindTaskById(id);
      if found.None? {
        return NotFound(TaskNotFound);
      }
      var i := found.value;
      RemoveHitsFound(tasks, id);
      RemoveKeepsValid(tasks, i);
      tasks := RemoveAt(tasks, i);
      return Deleted(DeletedMessage(id));
    }
  }

  /** The walk-through of the API: create on the seed table gets id 2 and is
      not finished; a patch of the flag alone keeps title and description;
      deleting the seed leaves only the new record. */
  method Walkthrough()
  {
    var store := new TaskStore();
    assert !IsWhitespace("A"[0]) && !IsWhitespace("B"[0]);
    var created := store.CreateTask("A", "B");
    assert created == Ok(Task(2, "A", "B", false));
    var patched := store.UpdateTask(2, None, None, Some(true));
    assert patched == Ok(Task(2, "A", "B", true));
    var deleted := store.DeleteTask(1);
    assert deleted.Deleted?;
    assert store.tasks == [Task(2, "A", "B", true)];
    var missing := store.GetTask(1);
    assert missing == NotFound(TaskNotFound);
  }
}
