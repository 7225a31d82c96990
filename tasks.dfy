/** The task record both components keep in memory, the raw seed record it
    is made from, and the list operations the two components share: seed
    formatting, appending a new task with the next id, and the status
    filter. */
module Tasks {
  import opened Sequences
  import opened Text

  /** The three status labels; the editors only offer these. */
  datatype Status = ToDo | InProgress | Done

  datatype Task = Task(id: int, title: string, description: string, status: Status)

  /** A record of the seed collection, as far as the list uses it. */
  datatype RawTask = RawTask(id: int, title: string, completed: bool)

  /** The add form's contents: a task without an id. */
  datatype Draft = Draft(title: string, description: string, status: Status)

  /** The status filter: `All` or one exact status. */
  datatype StatusFilter = All | Only(status: Status)

  datatype Result<T> = Ok(value: T) | Err(message: string)

  /** The label a status is shown and compared by. */
  function StatusLabel(s: Status): (name: string)
    ensures name in {"To Do", "In Progress", "Done"}
  {
    match s
    case ToDo => "To Do"
    case InProgress => "In Progress"
    case Done => "Done"
  }

  /** The value of the filter select. */
  function FilterLabel(f: StatusFilter): string {
    match f
    case All => "All"
    case Only(s) => StatusLabel(s)
  }

  /** Reads the filter select's value back; any other string is rejected. */
  function ParseFilter(value: string): (r: Result<StatusFilter>)
    ensures r.Ok? <==> value in {"All", "To Do", "In Progress", "Done"}
  {
    if value == "All" then Ok(All)
    else if value == "To Do" then Ok(Only(ToDo))
    else if value == "In Progress" then Ok(Only(InProgress))
    else if value == "Done" then Ok(Only(Done))
    else Err("unknown status")
  }

  /** Labels identify statuses: comparing labels is comparing statuses. */
  lemma FilterLabelRoundTrip(f: StatusFilter)
    ensures ParseFilter(FilterLabel(f)) == Ok(f)
  {
  }

  /** The fixed text every seed description starts with. */
  const DescriptionPrefix: string := "Description for task "

  /** One seed record as a task: the same id and title, a description
      naming the id, and `Done` or `To Do` from the completion flag. */
  function FormatTask(r: RawTask): (t: Task)
    ensures t.id == r.id && t.title == r.title
    ensures t.description == DescriptionPrefix + IntToDecimal(r.id)
    ensures t.status == Done <==> r.completed
    ensures t.status == ToDo <==> !r.completed
  {
    Task(r.id, r.title, DescriptionPrefix + IntToDecimal(r.id), if r.completed then Done else ToDo)
  }

  /** The whole seed collection, record by record, in order. */
  function FormatSeed(data: seq<RawTask>): (r: seq<Task>)
    ensures |r| == |data|
    ensures forall i :: 0 <= i < |data| ==>
      && r[i].id == data[i].id
      && r[i].title == data[i].title
      && r[i].description == DescriptionPrefix + IntToDecimal(data[i].id)
      && (r[i].status == Done <==> data[i].completed)
      && (r[i].status == ToDo <==> !data[i].completed)
  {
    seq(|data|, i requires 0 <= i < |data| => FormatTask(data[i]))
  }

  /** The id is recoverable from a seed description. */
  lemma SeedDescriptionNamesId(r: RawTask)
    ensures var d := FormatTask(r).description;
      |d| > |DescriptionPrefix| && d[..|DescriptionPrefix|] == DescriptionPrefix
      && SignedDecimalValue(d[|DescriptionPrefix|..]) == r.id
  {
    var d := FormatTask(r).description;
    assert d[|DescriptionPrefix|..] == IntToDecimal(r.id);
    IntToDecimalRoundTrip(r.id);
  }

  /** Seed records with different ids get different descriptions. */
  lemma SeedDescriptionsDistinct(a: RawTask, b: RawTask)
    requires a.id != b.id
    ensures FormatTask(a).description != FormatTask(b).description
  {
    SeedDescriptionNamesId(a);
    SeedDescriptionNamesId(b);
  }

  /** The invariant that makes `length + 1` a fresh id: the ids are
      exactly 1..N in list order. */
  predicate ContiguousIds(tasks: seq<Task>) {
    forall i :: 0 <= i < |tasks| ==> tasks[i].id == i + 1
  }

  /** Contiguous ids are unique, and none of them is `N + 1`. */
  lemma ContiguousIdsAreFresh(tasks: seq<Task>)
    requires ContiguousIds(tasks)
    ensures forall i, j :: 0 <= i < j < |tasks| ==> tasks[i].id != tasks[j].id
    ensures forall t :: t in tasks ==> 1 <= t.id <= |tasks|
  {
  }

  function HasId(id: int): Task -> bool {
    (t: Task) => t.id == id
  }

  function HasStatus(s: Status): Task -> bool {
    (t: Task) => t.status == s
  }

  /** The tasks whose id differs from `id`, in their original order: the
      filter both deletes are built on. */
  function WithoutId(tasks: seq<Task>, id: int): (r: seq<Task>)
    ensures IsSubsequence(r, tasks)
    ensures forall t :: t in r <==> t in tasks && t.id != id
    ensures |r| == |tasks| - |Matching(tasks, HasId(id))|
  {
    FilterSplit(tasks, HasId(id));
    FilterLengthCountsMatches(tasks, HasId(id));
    FilterIsSubsequence(tasks, Not(HasId(id)));
    assert forall t :: t in Filter(tasks, Not(HasId(id))) <==> t in tasks && t.id != id by {
      forall t { FilterMembership(tasks, Not(HasId(id)), t); }
    }
    Filter(tasks, Not(HasId(id)))
  }

  /** The draft appended with id `|tasks| + 1`, whatever came before. */
  function AppendNew(tasks: seq<Task>, d: Draft): (r: seq<Task>)
    ensures |r| == |tasks| + 1
    ensures r[..|tasks|] == tasks
    ensures r[|tasks|] == Task(|tasks| + 1, d.title, d.description, d.status)
  {
    tasks + [Task(|tasks| + 1, d.title, d.description, d.status)]
  }

  /** Appending keeps ids 1..N contiguous (now 1..N+1), and the new id
      collides with no existing one. */
  lemma AppendNewPreservesContiguity(tasks: seq<Task>, d: Draft)
    requires ContiguousIds(tasks)
    ensures ContiguousIds(AppendNew(tasks, d))
    ensures forall t :: t in tasks ==> t.id != |tasks| + 1
  {
    var r := AppendNew(tasks, d);
    forall i | 0 <= i < |r| ensures r[i].id == i + 1 {
      if i < |tasks| { assert r[i] == r[..|tasks|][i]; }
    }
  }

  /** The rows the status filter lets through. */
  function FilterByStatus(tasks: seq<Task>, f: StatusFilter): (r: seq<Task>)
    ensures f.All? ==> r == tasks
    ensures f.Only? ==> IsSubsequence(r, tasks)
    ensures f.Only? ==> forall t :: t in r <==> t in tasks && t.status == f.status
  {
    match f
    case All => tasks
    case Only(s) =>
      FilterIsSubsequence(tasks, HasStatus(s));
      assert forall t :: t in Filter(tasks, HasStatus(s)) <==> t in tasks && HasStatus(s)(t) by {
        forall t { FilterMembership(tasks, HasStatus(s), t); }
      }
      Filter(tasks, HasStatus(s))
  }

  /** No task with the chosen status is dropped, and none is duplicated. */
  lemma FilterByStatusKeepsEveryMatch(tasks: seq<Task>, s: Status, t: Task)
    ensures multiset(FilterByStatus(tasks, Only(s)))[t] == if t.status == s then multiset(tasks)[t] else 0
  {
    FilterMultiplicity(tasks, HasStatus(s), t);
  }

  /** Filtering twice by the same status is filtering once. */
  lemma FilterByStatusIdempotent(tasks: seq<Task>, f: StatusFilter)
    ensures FilterByStatus(FilterByStatus(tasks, f), f) == FilterByStatus(tasks, f)
  {
    if f.Only? {
      FilterIdempotent(tasks, HasStatus(f.status));
    }
  }
}
