/** The application root's own copy of the task list: loading the first
    twenty seed records, its `updateTask` and `deleteTask`, and its status
    filter. Its `addTask` is `Tasks.AppendNew` and its filter is
    `Tasks.FilterByStatus`. */
module App {
  import opened Sequences
  import opened Tasks
  import TaskTable

  /** How many seed records the root keeps. */
  const SeedLimit: nat := 20

  function Min(a: nat, b: nat): nat {
    if a < b then a else b
  }

  /** The first twenty seed records, formatted in order. */
  function Load(data: seq<RawTask>): (r: seq<Task>)
    ensures |r| == Min(SeedLimit, |data|)
    ensures forall i :: 0 <= i < |r| ==> r[i] == FormatTask(data[i])
  {
    FormatSeed(data[..Min(SeedLimit, |data|)])
  }

  /** When the seed ids are 1, 2, 3, ... the loaded list satisfies the id
      invariant, whatever the length of the collection. */
  lemma LoadCountingIdsIsContiguous(data: seq<RawTask>)
    requires forall i :: 0 <= i < |data| ==> data[i].id == i + 1
    ensures ContiguousIds(Load(data))
  {
  }

  /** Replaces every task with the edited task's id by the edited task. */
  function UpdateTask(tasks: seq<Task>, updated: Task): (r: seq<Task>)
    ensures |r| == |tasks|
    ensures forall i :: 0 <= i < |tasks| && tasks[i].id == updated.id ==> r[i] == updated
    ensures forall i :: 0 <= i < |tasks| && tasks[i].id != updated.id ==> r[i] == tasks[i]
  {
    seq(|tasks|, i requires 0 <= i < |tasks| => if tasks[i].id == updated.id then updated else tasks[i])
  }

  /** Updating an id that no task has changes nothing. */
  lemma {:induction false} UpdateMissingIsNoOp(tasks: seq<Task>, updated: Task)
    requires forall t :: t in tasks ==> t.id != updated.id
    ensures UpdateTask(tasks, updated) == tasks
  {
    var r := UpdateTask(tasks, updated);
    forall i | 0 <= i < |tasks| ensures r[i] == tasks[i] {
      assert tasks[i] in tasks;
    }
  }

  /** An update keeps every id where it was, so it keeps ids 1..N. */
  lemma UpdateKeepsIds(tasks: seq<Task>, updated: Task)
    ensures forall i :: 0 <= i < |tasks| ==> UpdateTask(tasks, updated)[i].id == tasks[i].id
    ensures ContiguousIds(tasks) ==> ContiguousIds(UpdateTask(tasks, updated))
  {
  }

  /** Applying the same edit twice is applying it once. */
  lemma UpdateIdempotent(tasks: seq<Task>, updated: Task)
    ensures UpdateTask(UpdateTask(tasks, updated), updated) == UpdateTask(tasks, updated)
  {
  }

  /** Removes the tasks with the given id; the others keep their ids. */
  function DeleteTask(tasks: seq<Task>, id: int): (r: seq<Task>)
    ensures IsSubsequence(r, tasks)
    ensures forall t :: t in r <==> t in tasks && t.id != id
    ensures |r| == |tasks| - |Matching(tasks, HasId(id))|
  {
    WithoutId(tasks, id)
  }

  /** Each task without the id survives as often as it occurred. */
  lemma DeleteTaskKeepsOthers(tasks: seq<Task>, id: int, t: Task)
    ensures multiset(DeleteTask(tasks, id))[t] == if t.id != id then multiset(tasks)[t] else 0
  {
    FilterMultiplicity(tasks, Not(HasId(id)), t);
  }

  /** Deleting an id that no task has changes nothing. */
  lemma DeleteMissingIsNoOp(tasks: seq<Task>, id: int)
    requires forall t :: t in tasks ==> t.id != id
    ensures DeleteTask(tasks, id) == tasks
  {
    forall i | 0 <= i < |tasks| ensures Not(HasId(id))(tasks[i]) {
      assert tasks[i] in tasks;
    }
    FilterKeepsAll(tasks, Not(HasId(id)));
  }

  /** Deleting the same id twice is deleting it once. */
  lemma DeleteTaskIdempotent(tasks: seq<Task>, id: int)
    ensures DeleteTask(DeleteTask(tasks, id), id) == DeleteTask(tasks, id)
  {
    FilterIdempotent(tasks, Not(HasId(id)));
  }

  /** The table's delete is this delete followed by renumbering. */
  lemma TableDeleteRenumbersRootDelete(tasks: seq<Task>, id: int)
    ensures TaskTable.DeleteAndRenumber(tasks, id) == TaskTable.Renumber(DeleteTask(tasks, id))
  {
  }

  /** Without renumbering, deleting the first of three tasks and then
      adding one gives two tasks with id 3. */
  lemma DeleteThenAddDuplicatesId(d: Draft)
    ensures var tasks := [Task(1, "a", "a", ToDo), Task(2, "b", "b", ToDo), Task(3, "c", "c", ToDo)];
      var r := AppendNew(DeleteTask(tasks, 1), d);
      ContiguousIds(tasks) && |r| == 3 && r[1].id == 3 && r[2].id == 3
  {
    var tasks := [Task(1, "a", "a", ToDo), Task(2, "b", "b", ToDo), Task(3, "c", "c", ToDo)];
    assert DeleteTask(tasks, 1) == [tasks[1], tasks[2]] by {
      assert tasks[1..] == [tasks[1], tasks[2]];
      assert tasks[1..][1..] == [tasks[2]];
      assert tasks[1..][1..][1..] == [];
    }
  }

  /** With the table's renumbering delete, a delete followed by an add
      always leaves ids 1..N, so no id is taken twice. */
  lemma RenumberedDeleteThenAddKeepsIdsUnique(tasks: seq<Task>, id: int, d: Draft)
    ensures var r := AppendNew(TaskTable.DeleteAndRenumber(tasks, id), d);
      ContiguousIds(r) && forall i, j :: 0 <= i < j < |r| ==> r[i].id != r[j].id
  {
    var r := AppendNew(TaskTable.DeleteAndRenumber(tasks, id), d);
    AppendNewPreservesContiguity(TaskTable.DeleteAndRenumber(tasks, id), d);
    ContiguousIdsAreFresh(r);
  }
}
