/** The task-table component: its list operations (add with validation,
    delete with renumbering, search, status counts) as functions over the
    task list, and its state together with the event handlers that replace
    that state. */
module TaskTable {
  import opened Sequences
  import opened Text
  import opened Tasks

  const IncompleteFieldsMessage: string := "Please fill in all fields"
  const AddedMessage: string := "Task added successfully!"
  const DeletedMessage: string := "Task deleted successfully!"

  /** The add form after a reset. */
  const EmptyDraft: Draft := Draft("", "", ToDo)

  /** The add button: a draft whose title or description trims to nothing
      is rejected; otherwise it is appended with id `|tasks| + 1`. */
  function AddTask(tasks: seq<Task>, d: Draft): (r: Result<seq<Task>>)
    ensures r.Err? <==> AllWhitespace(d.title) || AllWhitespace(d.description)
    ensures r.Err? ==> r.message == IncompleteFieldsMessage
    ensures r.Ok? ==> |r.value| == |tasks| + 1 && r.value[..|tasks|] == tasks
    ensures r.Ok? ==> r.value[|tasks|] == Task(|tasks| + 1, d.title, d.description, d.status)
  {
    TrimEmptyIffAllWhitespace(d.title);
    TrimEmptyIffAllWhitespace(d.description);
    if Trim(d.title) == "" || Trim(d.description) == "" then Err(IncompleteFieldsMessage)
    else Ok(AppendNew(tasks, d))
  }

  /** A valid add keeps ids 1..N contiguous, as 1..N+1, and the id it
      assigns is not already taken. */
  lemma AddTaskPreservesContiguity(tasks: seq<Task>, d: Draft)
    requires ContiguousIds(tasks)
    ensures AddTask(tasks, d).Ok? ==> ContiguousIds(AddTask(tasks, d).value)
    ensures forall t :: t in tasks ==> t.id != |tasks| + 1
  {
    AppendNewPreservesContiguity(tasks, d);
  }

  /** Gives the tasks the ids 1..N in list order, leaving everything else. */
  function Renumber(s: seq<Task>): (r: seq<Task>)
    ensures |r| == |s| && ContiguousIds(r)
    ensures forall i :: 0 <= i < |s| ==>
      r[i].title == s[i].title && r[i].description == s[i].description && r[i].status == s[i].status
  {
    seq(|s|, i requires 0 <= i < |s| => s[i].(id := i + 1))
  }

  /** Renumbering a list whose ids are already 1..N changes nothing. */
  lemma RenumberContiguousIsIdentity(s: seq<Task>)
    requires ContiguousIds(s)
    ensures Renumber(s) == s
  {
  }

  /** The delete button: the task with the row's id is removed and the rest
      are renumbered 1..N in their original order. */
  function DeleteAndRenumber(tasks: seq<Task>, id: int): (r: seq<Task>)
    ensures ContiguousIds(r)
    ensures |r| == |tasks| - |Matching(tasks, HasId(id))|
    ensures |r| == |WithoutId(tasks, id)|
    ensures forall i :: 0 <= i < |r| ==> r[i] == WithoutId(tasks, id)[i].(id := i + 1)
  {
    Renumber(WithoutId(tasks, id))
  }

  /** The ids of `s` count up from `first`. */
  ghost predicate IdsFrom(s: seq<Task>, first: int) {
    forall i :: 0 <= i < |s| ==> s[i].id == first + i
  }

  /** When ids count up from `first`, removing one id cuts out exactly the
      task at its position, and removing any other id changes nothing. */
  lemma WithoutCountingIds(s: seq<Task>, first: int, id: int)
    requires IdsFrom(s, first)
    ensures first <= id < first + |s| ==> WithoutId(s, id) == s[..id - first] + s[id - first + 1..]
    ensures !(first <= id < first + |s|) ==> WithoutId(s, id) == s
  {
    FilterCountingIds(s, first, id);
  }

  /** `WithoutCountingIds` for the filter the id filter is made of. */
  lemma {:induction false} FilterCountingIds(s: seq<Task>, first: int, id: int)
    requires IdsFrom(s, first)
    ensures first <= id < first + |s| ==> Filter(s, Not(HasId(id))) == s[..id - first] + s[id - first + 1..]
    ensures !(first <= id < first + |s|) ==> Filter(s, Not(HasId(id))) == s
  {
    if s != [] {
      var rest := s[1..];
      assert IdsFrom(rest, first + 1) by {
        forall i | 0 <= i < |rest| ensures rest[i].id == first + 1 + i {
          assert rest[i] == s[i + 1];
        }
      }
      FilterCountingIds(rest, first + 1, id);
      var k := id - first;
      if id == first {
        assert s[..k] + s[k + 1..] == rest;
      } else if first < id < first + |s| {
        ConsCut(s, k);
      } else {
        assert [s[0]] + rest == s;
      }
    }
  }

  /** Contiguity: deleting a present id from a list with ids 1..N leaves
      ids 1..N-1, with the tasks before it untouched and the ones after it
      moved down by one; deleting an absent id changes nothing. */
  lemma DeleteAndRenumberContiguity(tasks: seq<Task>, id: int)
    requires ContiguousIds(tasks)
    ensures 1 <= id <= |tasks| ==> |DeleteAndRenumber(tasks, id)| == |tasks| - 1
    ensures 1 <= id <= |tasks| ==> forall i :: 0 <= i < id - 1 ==> DeleteAndRenumber(tasks, id)[i] == tasks[i]
    ensures 1 <= id <= |tasks| ==> forall i :: id - 1 <= i < |tasks| - 1 ==>
      DeleteAndRenumber(tasks, id)[i] == tasks[i + 1].(id := i + 1)
    ensures !(1 <= id <= |tasks|) ==> DeleteAndRenumber(tasks, id) == tasks
  {
    WithoutCountingIds(tasks, 1, id);
    var kept := WithoutId(tasks, id);
    var r := DeleteAndRenumber(tasks, id);
    if 1 <= id <= |tasks| {
      assert |kept| == |tasks| - 1;
      forall i | 0 <= i < id - 1 ensures r[i] == tasks[i] {
        assert kept[i] == tasks[..id - 1][i];
      }
      forall i | id - 1 <= i < |tasks| - 1 ensures r[i] == tasks[i + 1].(id := i + 1) {
        assert kept[i] == tasks[id..][i - (id - 1)];
      }
    } else {
      RenumberContiguousIsIdentity(tasks);
    }
  }

  /** The search predicate for an already lower-cased term: the term
      occurs somewhere in the lower-cased title or description. */
  function Mentions(term: string): (m: Task -> bool)
    ensures forall t :: m(t) <==>
      (exists k :: OccursAt(ToLower(t.title), term, k)) || (exists k :: OccursAt(ToLower(t.description), term, k))
  {
    var m := (t: Task) => Contains(ToLower(t.title), term) || Contains(ToLower(t.description), term);
    forall t: Task ensures m(t) <==>
      (exists k :: OccursAt(ToLower(t.title), term, k)) || (exists k :: OccursAt(ToLower(t.description), term, k))
    {
      ContainsIffOccurs(ToLower(t.title), term);
      ContainsIffOccurs(ToLower(t.description), term);
    }
    m
  }

  /** The search box: the tasks whose lower-cased title or description
      contains the lower-cased term, in their original order. */
  function Search(tasks: seq<Task>, term: string): (r: seq<Task>)
    ensures IsSubsequence(r, tasks)
    ensures forall t :: t in r <==>
      (t in tasks && (Contains(ToLower(t.title), ToLower(term)) || Contains(ToLower(t.description), ToLower(term))))
  {
    FilterIsSubsequence(tasks, Mentions(ToLower(term)));
    assert forall t :: t in Filter(tasks, Mentions(ToLower(term))) <==> t in tasks && Mentions(ToLower(term))(t) by {
      forall t { FilterMembership(tasks, Mentions(ToLower(term)), t); }
    }
    Filter(tasks, Mentions(ToLower(term)))
  }

  /** A matching task is kept as often as it occurs, a non-matching one not
      at all. */
  lemma SearchKeepsEveryMatch(tasks: seq<Task>, term: string, t: Task)
    ensures multiset(Search(tasks, term))[t] == if Mentions(ToLower(term))(t) then multiset(tasks)[t] else 0
  {
    FilterMultiplicity(tasks, Mentions(ToLower(term)), t);
  }

  /** An empty term matches every task, so it shows the whole list. */
  lemma SearchEmptyTermIsIdentity(tasks: seq<Task>)
    ensures Search(tasks, "") == tasks
  {
    forall i | 0 <= i < |tasks| ensures Mentions(ToLower(""))(tasks[i]) {
      ContainsEmpty(ToLower(tasks[i].title));
    }
    FilterKeepsAll(tasks, Mentions(ToLower("")));
  }

  /** The letter case of the term does not matter. */
  lemma SearchIgnoresTermCase(tasks: seq<Task>, term: string)
    ensures Search(tasks, ToLower(term)) == Search(tasks, term)
  {
    ToLowerIdempotent(term);
  }

  /** A status badge: how many tasks have status `s`. */
  function StatusCount(tasks: seq<Task>, s: Status): (n: nat)
    ensures n == |set i: nat | i < |tasks| && tasks[i].status == s|
  {
    FilterLengthCountsMatches(tasks, HasStatus(s));
    assert Matching(tasks, HasStatus(s)) == set i: nat | i < |tasks| && tasks[i].status == s;
    |Filter(tasks, HasStatus(s))|
  }

  /** The three badges together count every task once. */
  lemma {:induction false} StatusCountsSum(tasks: seq<Task>)
    ensures StatusCount(tasks, ToDo) + StatusCount(tasks, InProgress) + StatusCount(tasks, Done) == |tasks|
  {
    if tasks != [] {
      StatusCountsSum(tasks[1..]);
      assert Filter(tasks, HasStatus(ToDo)) == (if tasks[0].status == ToDo then [tasks[0]] else []) + Filter(tasks[1..], HasStatus(ToDo));
      assert Filter(tasks, HasStatus(InProgress)) == (if tasks[0].status == InProgress then [tasks[0]] else []) + Filter(tasks[1..], HasStatus(InProgress));
      assert Filter(tasks, HasStatus(Done)) == (if tasks[0].status == Done then [tasks[0]] else []) + Filter(tasks[1..], HasStatus(Done));
    }
  }

  /** A valid add raises the badge of the new task's status by one and
      leaves the other two. */
  lemma AddTaskRaisesOneCount(tasks: seq<Task>, d: Draft, s: Status)
    requires !AllWhitespace(d.title) && !AllWhitespace(d.description)
    ensures AddTask(tasks, d).Ok?
    ensures StatusCount(AddTask(tasks, d).value, s) == StatusCount(tasks, s) + (if d.status == s then 1 else 0)
  {
    var n := Task(|tasks| + 1, d.title, d.description, d.status);
    assert AddTask(tasks, d).value == tasks + [n];
    FilterConcat(tasks, [n], HasStatus(s));
    assert [n][1..] == [];
  }

  /** The component's state. Every handler replaces whole fields, as the
      component's state setters do; the search results are kept apart from
      the status filter. */
  class TaskTableState {
    var tasks: seq<Task>
    var newTask: Draft
    var filterStatus: StatusFilter
    var searchTerm: string
    var searchResults: seq<Task>
    var notification: string

    constructor ()
      ensures tasks == [] && newTask == EmptyDraft && filterStatus == All
      ensures searchTerm == "" && searchResults == [] && notification == ""
    {
      tasks := [];
      newTask := EmptyDraft;
      filterStatus := All;
      searchTerm := "";
      searchResults := [];
      notification := "";
    }

    /** The seed collection has arrived. */
    method LoadSeed(data: seq<RawTask>)
      modifies this`tasks
      ensures tasks == FormatSeed(data)
    {
      tasks := FormatSeed(data);
    }

    /** The title input of the add form changed. */
    method EditTitle(value: string)
      modifies this`newTask
      ensures newTask == old(newTask).(title := value)
    {
      newTask := newTask.(title := value);
    }

    /** The description input of the add form changed. */
    method EditDescription(value: string)
      modifies this`newTask
      ensures newTask == old(newTask).(description := value)
    {
      newTask := newTask.(description := value);
    }

    /** The status select of the add form changed. */
    method EditStatus(value: Status)
      modifies this`newTask
      ensures newTask == old(newTask).(status := value)
    {
      newTask := newTask.(status := value);
    }

    /** The add button. A rejected draft leaves the list, the form and the
        banner as they were; an accepted one is appended, the form is reset
        and the banner says so. */
    method HandleAddTask() returns (added: bool)
      modifies this`tasks, this`newTask, this`notification
      ensures added <==> !(AllWhitespace(old(newTask).title) || AllWhitespace(old(newTask).description))
      ensures !added ==> tasks == old(tasks) && newTask == old(newTask) && notification == old(notification)
      ensures added ==> tasks == AppendNew(old(tasks), old(newTask))
      ensures added ==> newTask == EmptyDraft && notification == AddedMessage
      ensures ContiguousIds(old(tasks)) ==> ContiguousIds(tasks)
    {
      var r := AddTask(tasks, newTask);
      if r.Ok? {
        if ContiguousIds(tasks) { AddTaskPreservesContiguity(tasks, newTask); }
        tasks := r.value;
        newTask := EmptyDraft;
        notification := AddedMessage;
        added := true;
      } else {
        added := false;
      }
    }

    /** The delete button of the row with id `id`. */
    method DeleteRow(id: int)
      modifies this`tasks, this`notification
      ensures tasks == DeleteAndRenumber(old(tasks), id) && ContiguousIds(tasks)
      ensures ContiguousIds(old(tasks)) && 1 <= id <= |old(tasks)| ==> |tasks| == |old(tasks)| - 1
      ensures notification == DeletedMessage
    {
      if ContiguousIds(tasks) { DeleteAndRenumberContiguity(tasks, id); }
      tasks := DeleteAndRenumber(tasks, id);
      notification := DeletedMessage;
    }

    /** The search box changed: the term is stored lower-cased, and an empty
        term shows every task. */
    method HandleSearch(value: string)
      modifies this`searchTerm, this`searchResults
      ensures searchTerm == ToLower(value)
      ensures searchResults == Search(tasks, value)
    {
      var term := ToLower(value);
      searchTerm := term;
      SearchIgnoresTermCase(tasks, value);
      if term == "" {
        SearchEmptyTermIsIdentity(tasks);
        searchResults := tasks;
      } else {
        searchResults := Search(tasks, term);
      }
    }

    /** The status filter select changed to `value`. The select offers
        only the four labels; any other value leaves the filter as it was. */
    method SelectFilter(value: string) returns (accepted: bool)
      modifies this`filterStatus
      ensures accepted <==> value in {"All", "To Do", "In Progress", "Done"}
      ensures accepted ==> FilterLabel(filterStatus) == value
      ensures !accepted ==> filterStatus == old(filterStatus)
    {
      var r := ParseFilter(value);
      if r.Ok? {
        filterStatus := r.value;
        accepted := true;
      } else {
        accepted := false;
      }
    }

    /** The rows handed to the grid: the list under the status filter. */
    function Rows(): (r: seq<Task>)
      reads this
      ensures filterStatus.All? ==> r == tasks
      ensures filterStatus.Only? ==> IsSubsequence(r, tasks)
      ensures filterStatus.Only? ==> forall t :: t in r <==> t in tasks && t.status == filterStatus.status
    {
      FilterByStatus(tasks, filterStatus)
    }
  }
}
