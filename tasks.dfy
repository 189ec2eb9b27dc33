/** The task table of marj.py as a value: the record type, the lookup by id,
    the id assignment of create, the removal of one record, and the "ids are
    unique and positive" invariant with the facts that each handler keeps it. */
module Tasks {

  datatype Option<T> = None | Some(value: T) {
    /** The carried value, or `current` when nothing was supplied. */
    function GetOr(current: T): T
    {
      if Some? then value else current
    }
  }

  /** One record of `task_db` (marj.py:7-9, 45-50). */
  datatype Task = Task(id: int, title: string, desc: string, isFinished: bool)

  /** The record the table starts with (marj.py:8). */
  const Seed := Task(1, "Laboratory Activity", "Create Lab Act 2", false)

  /** No two records share an id. */
  ghost predicate UniqueIds(tasks: seq<Task>)
  {
    forall j, k :: 0 <= j < k < |tasks| ==> tasks[j].id != tasks[k].id
  }

  ghost predicate PositiveIds(tasks: seq<Task>)
  {
    forall j :: 0 <= j < |tasks| ==> tasks[j].id > 0
  }

  /** The invariant of the table: ids are unique and positive. */
  ghost predicate ValidTable(tasks: seq<Task>)
  {
    UniqueIds(tasks) && PositiveIds(tasks)
  }

  /** True when no record carries `id`. */
  ghost predicate Absent(tasks: seq<Task>, id: int)
  {
    forall j :: 0 <= j < |tasks| ==> tasks[j].id != id
  }

  /** `find_task_by_id` as a value: the position of the first record whose id
      is `id`, or None when there is none. */
  function Lookup(tasks: seq<Task>, id: int): (r: Option<nat>)
    ensures r.Some? ==> r.value < |tasks| && tasks[r.value].id == id
    ensures r.Some? ==> forall j :: 0 <= j < r.value ==> tasks[j].id != id
    ensures r.None? <==> Absent(tasks, id)
  {
    if tasks == [] then None
    else if tasks[0].id == id then Some(0)
    else match Lookup(tasks[1..], id)
      case None => None
      case Some(i) => Some(i + 1)
  }

  /** With unique ids, a record is found exactly at the position it sits at. */
  lemma LookupAt(tasks: seq<Task>, i: nat)
    requires UniqueIds(tasks) && i < |tasks|
    ensures Lookup(tasks, tasks[i].id) == Some(i)
  {
  }

  /** `max([task["task_id"] for task in task_db])` on a non-empty table. */
  function MaxId(tasks: seq<Task>): (m: int)
    requires tasks != []
    ensures exists j :: 0 <= j < |tasks| && tasks[j].id == m
    ensures forall j :: 0 <= j < |tasks| ==> tasks[j].id <= m
  {
    if |tasks| == 1 then tasks[0].id
    else
      var rest := MaxId(tasks[1..]);
      if tasks[0].id >= rest then tasks[0].id else rest
  }

  /** The id create assigns (marj.py:44): one more than the largest id, or 1 on
      an empty table. */
  function NextId(tasks: seq<Task>): (r: int)
    ensures tasks == [] ==> r == 1
    ensures tasks != [] ==> exists j :: 0 <= j < |tasks| && tasks[j].id == r - 1
    ensures forall j :: 0 <= j < |tasks| ==> tasks[j].id < r
  {
    if tasks == [] then 1 else MaxId(tasks) + 1
  }

  /** Ids are not a counter: deleting the record that holds the largest id
      hands that id out again on the next create. */
  lemma NextIdReusedAfterRemovingMax(tasks: seq<Task>, t: Task)
    requires t.id == NextId(tasks)
    ensures NextId(RemoveAt(tasks + [t], |tasks|)) == t.id
  {
    assert RemoveAt(tasks + [t], |tasks|) == tasks;
  }

  /** A fresh id is taken by no record, and is positive on a valid table. */
  lemma NextIdFresh(tasks: seq<Task>)
    requires PositiveIds(tasks)
    ensures Absent(tasks, NextId(tasks)) && NextId(tasks) > 0
  {
    if tasks != [] {
      assert tasks[0].id > 0 && tasks[0].id < NextId(tasks);
    }
  }

  /** The table with the record at `i` taken out; the others keep their order. */
  function RemoveAt(tasks: seq<Task>, i: nat): (r: seq<Task>)
    requires i < |tasks|
    ensures |r| == |tasks| - 1
    ensures forall j :: 0 <= j < i ==> r[j] == tasks[j]
    ensures forall j :: i <= j < |r| ==> r[j] == tasks[j + 1]
  {
    tasks[..i] + tasks[i + 1..]
  }

  /** Appending a record with the fresh id keeps ids unique and positive. */
  lemma AppendFresh(tasks: seq<Task>, t: Task)
    requires ValidTable(tasks) && t.id == NextId(tasks)
    ensures ValidTable(tasks + [t])
  {
    NextIdFresh(tasks);
    var s := tasks + [t];
    forall j, k | 0 <= j < k < |s| ensures s[j].id != s[k].id {
      assert s[j] == tasks[j];
    }
  }

  /** After appending a record with an unused id, a lookup of that id finds the
      appended record. */
  lemma LookupAppended(tasks: seq<Task>, t: Task)
    requires Absent(tasks, t.id)
    ensures Lookup(tasks + [t], t.id) == Some(|tasks|)
  {
    var s := tasks + [t];
    assert s[|tasks|].id == t.id;
    assert forall j :: 0 <= j < |tasks| ==> s[j] == tasks[j];
  }

  /** Overwriting a record with one of the same id keeps the table valid and
      changes no lookup. */
  lemma UpdateKeepsLookups(tasks: seq<Task>, i: nat, t: Task)
    requires i < |tasks| && t.id == tasks[i].id
    ensures ValidTable(tasks) ==> ValidTable(tasks[i := t])
    ensures forall id :: Lookup(tasks[i := t], id) == Lookup(tasks, id)
  {
    var s := tasks[i := t];
    assert forall j :: 0 <= j < |s| ==> s[j].id == tasks[j].id;
  }

  /** Removing a record keeps the table valid; on a table with unique ids its
      id is then no longer found. */
  lemma RemoveKeepsValid(tasks: seq<Task>, i: nat)
    requires i < |tasks|
    ensures ValidTable(tasks) ==> ValidTable(RemoveAt(tasks, i))
    ensures UniqueIds(tasks) ==> Lookup(RemoveAt(tasks, i), tasks[i].id) == None
  {
    var r := RemoveAt(tasks, i);
    if UniqueIds(tasks) {
      forall j, k | 0 <= j < k < |r| ensures r[j].id != r[k].id {
        var j', k' := if j < i then j else j + 1, if k < i then k else k + 1;
        assert r[j] == tasks[j'] && r[k] == tasks[k'];
      }
      forall j | 0 <= j < |r| ensures r[j].id != tasks[i].id {
        var j' := if j < i then j else j + 1;
        assert r[j] == tasks[j'];
      }
    }
  }

  /** Python's `list.remove(x)` drops the first element equal to `x`. No record
      before the one a lookup finds is equal to it (an equal record would carry
      the same id), so removing the found record removes it at its position. */
  lemma RemoveHitsFound(tasks: seq<Task>, id: int)
    requires Lookup(tasks, id).Some?
    ensures forall j :: 0 <= j < Lookup(tasks, id).value ==> tasks[j] != tasks[Lookup(tasks, id).value]
  {
  }
}
