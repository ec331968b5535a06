/** The task store: the canonical task sequence and the active filter, the
    actions that replace them, and the two views derived from them. */
module UseTasks {
  import opened JsStrings
  import opened TaskModel
  import opened TaskService

  /** `tasks.map(task => task.id === id ? f(task) : task)`. */
  function MapById(s: seq<Task>, id: string, f: Task -> Task): (r: seq<Task>)
    ensures |r| == |s|
    ensures forall i :: 0 <= i < |s| ==> r[i] == if s[i].id == id then f(s[i]) else s[i]
  {
    if s == [] then []
    else [if s[0].id == id then f(s[0]) else s[0]] + MapById(s[1..], id, f)
  }

  /** An id that no task carries leaves the sequence as it is. */
  lemma MapByIdUnknown(s: seq<Task>, id: string, f: Task -> Task)
    requires id !in Ids(s)
    ensures MapById(s, id, f) == s
  {
    var r := MapById(s, id, f);
    assert forall i :: 0 <= i < |s| ==> s[i].id != id by {
      forall i | 0 <= i < |s| ensures s[i].id != id {
        assert Ids(s)[i] == s[i].id;
      }
    }
  }

  lemma MapByIdIds(s: seq<Task>, id: string, f: Task -> Task)
    requires forall t :: f(t).id == t.id
    ensures Ids(MapById(s, id, f)) == Ids(s)
  {
  }

  /** Flips the tasks carrying `id` and nothing else: every position keeps
      its id and all fields but `completed`, and `completed` changes
      exactly where the id matches. */
  function ToggledById(s: seq<Task>, id: string): (r: seq<Task>)
    ensures |r| == |s|
    ensures forall i :: 0 <= i < |s| ==>
              && r[i].(completed := s[i].completed) == s[i]
              && (r[i].completed != s[i].completed <==> s[i].id == id)
  {
    MapById(s, id, ToggleTaskCompletion)
  }

  /** Applies the update to the tasks carrying `id` and leaves the others;
      ids never change. */
  function UpdatedById(s: seq<Task>, id: string, u: TaskUpdate): (r: seq<Task>)
    ensures |r| == |s|
    ensures forall i :: 0 <= i < |s| ==> r[i].id == s[i].id
    ensures forall i :: 0 <= i < |s| && s[i].id == id ==> r[i] == TaskService.UpdateTask(s[i], u)
    ensures forall i :: 0 <= i < |s| && s[i].id != id ==> r[i] == s[i]
  {
    MapById(s, id, (t: Task) => TaskService.UpdateTask(t, u))
  }

  /** `tasks.filter(task => task.id !== id)`: every task with another id
      stays, with its multiplicity, and none with this id does. */
  function WithoutId(s: seq<Task>, id: string): (r: seq<Task>)
    ensures forall t :: t in r <==> t in s && t.id != id
    ensures forall t: Task :: t.id != id ==> multiset(r)[t] == multiset(s)[t]
  {
    Keep(s, (t: Task) => t.id != id)
  }

  /** The check an update passes before it is applied: whenever a title or
      a description is supplied, the supplied title, or the empty string in
      its place, is validated together with the supplied description. */
  function UpdateValidation(u: TaskUpdate): (r: Validation)
    ensures u.title.None? && u.description.None? ==> r == Accepted
    ensures u.title.Some? ==> r == ValidateTask(u.title.value, u.description)
    ensures u.title.None? && u.description.Some? ==> r == Rejected(EmptyTitle)
  {
    assert Trim("") == [];
    if u.title.Some? || u.description.Some? then
      ValidateTask(u.title.GetOr(""), u.description)
    else
      Accepted
  }

  /** Which updates pass: those that touch neither text field, and those
      whose supplied title, with the supplied description, validates. In
      particular an update of the description alone never passes. */
  lemma UpdateValidationAccepts(u: TaskUpdate)
    ensures UpdateValidation(u) == Accepted <==>
              (u.title.None? && u.description.None?)
              || (u.title.Some? && ValidateTask(u.title.value, u.description) == Accepted)
  {
    if u.title.None? && u.description.Some? {
      assert Trim("") == [];
    }
  }

  lemma DescriptionOnlyUpdateRejected(u: TaskUpdate)
    requires u.title.None? && u.description.Some?
    ensures UpdateValidation(u) == Rejected(EmptyTitle)
  {
    assert Trim("") == [];
  }

  /** An update that passes validation keeps a well-formed task well-formed. */
  lemma AcceptedUpdateKeepsWellFormed(t: Task, u: TaskUpdate)
    requires WellFormed(t) && UpdateValidation(u) == Accepted
    ensures WellFormed(TaskService.UpdateTask(t, u))
  {
    UpdateValidationAccepts(u);
    if u.title.Some? {
      TrimIdempotent(u.title.value);
    }
    if u.description.Some? {
      TrimIdempotent(u.description.value);
    }
  }

  /** The store's invariant: sorted, no id twice, every task as
      validation left it. */
  ghost predicate StoreInvariant(s: seq<Task>) {
    Sorted(s) && UniqueIds(s) && AllWellFormed(s)
  }

  /** Adding a validated task under a new id keeps the invariant. */
  lemma AddKeepsInvariant(s: seq<Task>, id: string, title: string, description: Option<string>, due: Option<Date>)
    requires StoreInvariant(s) && id !in Ids(s)
    requires ValidateTask(title, description) == Accepted
    ensures StoreInvariant(SortTasks(s + [CreateTask(id, title, description, due)]))
  {
    var created := CreateTask(id, title, description, due);
    CreateWellFormedIffValid(id, title, description, due);
    AppendKeepsIdsAndForm(s, created);
    SortKeepsInvariants(s + [created]);
  }

  lemma AppendKeepsIdsAndForm(s: seq<Task>, t: Task)
    requires UniqueIds(s) && AllWellFormed(s)
    requires WellFormed(t) && t.id !in Ids(s)
    ensures UniqueIds(s + [t]) && AllWellFormed(s + [t])
  {
    IdsConcat(s, [t]);
    assert multiset(Ids(s + [t])) == multiset(Ids(s)) + multiset{t.id};
  }

  /** Rewriting one id's tasks with a function that keeps ids and
      well-formedness keeps both properties of the sequence. */
  lemma MapKeepsIdsAndForm(s: seq<Task>, id: string, f: Task -> Task)
    requires UniqueIds(s) && AllWellFormed(s)
    requires forall t :: f(t).id == t.id
    requires forall i :: 0 <= i < |s| ==> WellFormed(f(s[i]))
    ensures UniqueIds(MapById(s, id, f)) && AllWellFormed(MapById(s, id, f))
  {
    var mapped := MapById(s, id, f);
    MapByIdIds(s, id, f);
    forall t | t in mapped ensures WellFormed(t) {
      var i :| 0 <= i < |mapped| && mapped[i] == t;
      assert s[i] in s;
    }
  }

  /** Toggling keeps the invariant, and an unknown id changes nothing. */
  lemma ToggleKeepsInvariant(s: seq<Task>, id: string)
    requires StoreInvariant(s)
    ensures StoreInvariant(SortTasks(ToggledById(s, id)))
    ensures id !in Ids(s) ==> SortTasks(ToggledById(s, id)) == s
  {
    forall i | 0 <= i < |s| ensures WellFormed(ToggleTaskCompletion(s[i])) {
      assert s[i] in s;
      ToggleKeepsWellFormed(s[i]);
    }
    MapKeepsIdsAndForm(s, id, ToggleTaskCompletion);
    SortKeepsInvariants(ToggledById(s, id));
    if id !in Ids(s) {
      MapByIdUnknown(s, id, ToggleTaskCompletion);
      SortSortedIsIdentity(s);
    }
  }

  /** A validated update keeps the invariant, and an unknown id changes
      nothing. */
  lemma UpdateKeepsInvariant(s: seq<Task>, id: string, u: TaskUpdate)
    requires StoreInvariant(s) && UpdateValidation(u) == Accepted
    ensures StoreInvariant(SortTasks(UpdatedById(s, id, u)))
    ensures id !in Ids(s) ==> SortTasks(UpdatedById(s, id, u)) == s
  {
    var apply := (t: Task) => TaskService.UpdateTask(t, u);
    forall i | 0 <= i < |s| ensures WellFormed(apply(s[i])) {
      assert s[i] in s;
      AcceptedUpdateKeepsWellFormed(s[i], u);
    }
    MapKeepsIdsAndForm(s, id, apply);
    SortKeepsInvariants(UpdatedById(s, id, u));
    if id !in Ids(s) {
      MapByIdUnknown(s, id, apply);
      SortSortedIsIdentity(s);
    }
  }

  /** Deleting keeps the invariant and the order of what remains: exactly
      the tasks with another id. An unknown id changes nothing. */
  lemma DeleteKeepsInvariant(s: seq<Task>, id: string)
    requires StoreInvariant(s)
    ensures StoreInvariant(WithoutId(s, id))
    ensures IsSubsequence(WithoutId(s, id), s)
    ensures forall t :: multiset(WithoutId(s, id))[t] == if t.id == id then 0 else multiset(s)[t]
    ensures id !in Ids(s) ==> WithoutId(s, id) == s
  {
    var p := (t: Task) => t.id != id;
    KeepSorted(s, p);
    KeepIds(s, p);
    KeepSubsequence(s, p);
    if id !in Ids(s) {
      assert forall i :: 0 <= i < |s| ==> s[i].id != id by {
        forall i | 0 <= i < |s| ensures s[i].id != id {
          assert Ids(s)[i] == s[i].id;
        }
      }
      KeepAll(s, p);
    }
  }

  /** Clearing the completed tasks keeps the invariant and the order of
      the pending ones. */
  lemma ClearKeepsInvariant(s: seq<Task>)
    requires StoreInvariant(s)
    ensures StoreInvariant(FilterTasks(s, Pending))
    ensures IsSubsequence(FilterTasks(s, Pending), s)
  {
    FilterKeepsOrder(s, Pending);
    KeepIds(s, (t: Task) => !t.completed);
  }

  datatype TaskStats = TaskStats(total: nat, completed: nat, pending: nat)

  class TaskStore {
    var tasks: seq<Task>
    var filter: Filter

    ghost predicate Valid()
      reads this
    {
      StoreInvariant(tasks)
    }

    constructor ()
      ensures Valid()
      ensures tasks == [] && filter == All
    {
      tasks := [];
      filter := All;
    }

    /** The list the screen shows: the tasks the active filter selects, in
        the stored order. */
    function VisibleTasks(): (r: seq<Task>)
      reads this
      requires Valid()
      ensures forall t :: t in r <==> t in tasks && Shows(filter, t)
      ensures IsSubsequence(r, tasks) && Sorted(r)
    {
      FilterKeepsOrder(tasks, filter);
      FilterTasks(tasks, filter)
    }

    /** The counts, always over the whole sequence whatever the filter. */
    function Stats(): (st: TaskStats)
      reads this
      ensures st.total == |tasks| && st.completed + st.pending == st.total
      ensures st.completed == |FilterTasks(tasks, Completed)| && st.pending == |FilterTasks(tasks, Pending)|
      ensures st.completed == 0 <==> forall t :: t in tasks ==> !t.completed
      ensures st.pending == 0 <==> forall t :: t in tasks ==> t.completed
    {
      FilterPartition(tasks);
      var done := FilterTasks(tasks, Completed);
      var open := FilterTasks(tasks, Pending);
      assert done == [] ==> forall t :: t in tasks ==> !t.completed;
      assert open == [] ==> forall t :: t in tasks ==> t.completed;
      assert done != [] ==> done[0] in tasks && done[0].completed;
      assert open != [] ==> open[0] in tasks && !open[0].completed;
      TaskStats(|tasks|, |done|, |open|)
    }

    method SetFilter(f: Filter)
      requires Valid()
      modifies this
      ensures Valid()
      ensures filter == f && tasks == old(tasks)
    {
      filter := f;
    }

    /** Validates, then adds the created task and re-sorts. The id the
        service would draw is supplied, and must be new. */
    method AddTask(id: string, title: string, description: Option<string>, due: Option<Date>)
      returns (r: Validation)
      requires Valid()
      requires id !in Ids(tasks)
      modifies this
      ensures Valid() && filter == old(filter)
      ensures r == ValidateTask(title, description)
      ensures r.Rejected? ==> tasks == old(tasks)
      ensures r.Accepted? ==> tasks == SortTasks(old(tasks) + [CreateTask(id, title, description, due)])
      ensures r.Accepted? ==> multiset(tasks) == multiset(old(tasks)) + multiset{CreateTask(id, title, description, due)}
    {
      r := ValidateTask(title, description);
      if r.Rejected? {
        return;
      }
      AddKeepsInvariant(tasks, id, title, description, due);
      tasks := SortTasks(tasks + [CreateTask(id, title, description, due)]);
    }

    /** Flips the task with this id and re-sorts. */
    method ToggleTask(id: string)
      requires Valid()
      modifies this
      ensures Valid() && filter == old(filter)
      ensures tasks == SortTasks(ToggledById(old(tasks), id))
      ensures multiset(tasks) == multiset(ToggledById(old(tasks), id))
      ensures id !in Ids(old(tasks)) ==> tasks == old(tasks)
    {
      ToggleKeepsInvariant(tasks, id);
      tasks := SortTasks(ToggledById(tasks, id));
    }

    /** Removes every task with this id; the rest keep their order. */
    method DeleteTask(id: string)
      requires Valid()
      modifies this
      ensures Valid() && filter == old(filter)
      ensures tasks == WithoutId(old(tasks), id)
      ensures forall t :: multiset(tasks)[t] == if t.id == id then 0 else multiset(old(tasks))[t]
      ensures IsSubsequence(tasks, old(tasks))
      ensures id !in Ids(old(tasks)) ==> tasks == old(tasks)
    {
      DeleteKeepsInvariant(tasks, id);
      tasks := WithoutId(tasks, id);
    }

    /** Validates the update as `UpdateValidation` says, then applies it to
        the task with this id and re-sorts. */
    method UpdateTask(id: string, u: TaskUpdate) returns (r: Validation)
      requires Valid()
      modifies this
      ensures Valid() && filter == old(filter)
      ensures r == UpdateValidation(u)
      ensures r.Rejected? ==> tasks == old(tasks)
      ensures r.Accepted? ==> tasks == SortTasks(UpdatedById(old(tasks), id, u))
      ensures r.Accepted? ==> multiset(tasks) == multiset(UpdatedById(old(tasks), id, u))
      ensures id !in Ids(old(tasks)) ==> tasks == old(tasks)
    {
      r := UpdateValidation(u);
      if r.Rejected? {
        return;
      }
      UpdateKeepsInvariant(tasks, id, u);
      tasks := SortTasks(UpdatedById(tasks, id, u));
    }

    /** Drops every completed task; the pending ones keep their order. */
    method ClearCompleted()
      requires Valid()
      modifies this
      ensures Valid() && filter == old(filter)
      ensures tasks == FilterTasks(old(tasks), Pending)
      ensures IsSubsequence(tasks, old(tasks))
      ensures Stats().completed == 0 && Stats().total == old(Stats().pending)
    {
      ClearKeepsInvariant(tasks);
      tasks := FilterTasks(tasks, Pending);
    }
  }
}
