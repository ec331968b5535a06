/** The stateless task operations: validation, construction, toggling,
    partial updates, filtering and sorting. Each builds a new value and
    leaves its arguments alone. */
module TaskService {
  import opened JsStrings
  import opened TaskModel

  // ---------------------------------------------------------------------
  // Validation

  datatype ValidationError = EmptyTitle | TitleTooLong | DescriptionTooLong

  /** The text the caller receives with a rejection. */
  function ErrorMessage(e: ValidationError): string {
    match e
    case EmptyTitle => "Task title is required"
    case TitleTooLong => "Task title must be less than 100 characters"
    case DescriptionTooLong => "Task description must be less than 500 characters"
  }

  lemma ErrorMessagesDistinct(e1: ValidationError, e2: ValidationError)
    requires e1 != e2
    ensures ErrorMessage(e1) != ErrorMessage(e2)
  {
    assert |ErrorMessage(e1)| != |ErrorMessage(e2)|;
  }

  /** `{ isValid: true }`, or `{ isValid: false, error }`. */
  datatype Validation = Accepted | Rejected(error: ValidationError)

  /** The checks run in order: a blank title first, then the title's
      length, then the description's length. An absent or empty
      description is never looked at. */
  function ValidateTask(title: string, description: Option<string>): (r: Validation)
    ensures r == Rejected(EmptyTitle) <==> Trim(title) == []
    ensures r == Rejected(TitleTooLong) <==> CodeUnits(Trim(title)) > 100
    ensures r == Rejected(DescriptionTooLong) <==>
              0 < CodeUnits(Trim(title)) <= 100
              && description.Some? && CodeUnits(Trim(description.value)) > 500
    ensures r == Accepted <==>
              0 < CodeUnits(Trim(title)) <= 100
              && (description.None? || CodeUnits(Trim(description.value)) <= 500)
  {
    if title == "" || CodeUnits(Trim(title)) == 0 then Rejected(EmptyTitle)
    else if CodeUnits(Trim(title)) > 100 then Rejected(TitleTooLong)
    else if description.Some? && description.value != ""
            && CodeUnits(Trim(description.value)) > 500 then Rejected(DescriptionTooLong)
    else Accepted
  }

  // ---------------------------------------------------------------------
  // Construction, toggling and partial updates

  /** A new pending task. The id, which the service draws from the clock
      and a random source, is supplied by the caller. A missing
      description becomes the empty string. */
  function CreateTask(id: string, title: string, description: Option<string>, due: Option<Date>): (t: Task)
    ensures t.id == id && !t.completed && t.due == due
    ensures t.title == Trim(title)
    ensures t.description == Some(Trim(description.GetOr("")))
  {
    Task(id, Trim(title), due, Some(Trim(description.GetOr(""))), false)
  }

  /** Validation accepts exactly the inputs from which a well-formed task
      is built. */
  lemma CreateWellFormedIffValid(id: string, title: string, description: Option<string>, due: Option<Date>)
    ensures WellFormed(CreateTask(id, title, description, due))
            <==> ValidateTask(title, description) == Accepted
  {
    TrimIdempotent(title);
    TrimIdempotent(description.GetOr(""));
    assert Trim("") == "";
  }

  function ToggleTaskCompletion(t: Task): (r: Task)
    ensures r.completed == !t.completed
    ensures r.(completed := t.completed) == t
  {
    t.(completed := !t.completed)
  }

  lemma ToggleInvolution(t: Task)
    ensures ToggleTaskCompletion(ToggleTaskCompletion(t)) == t
  {
  }

  lemma ToggleKeepsWellFormed(t: Task)
    requires WellFormed(t)
    ensures WellFormed(ToggleTaskCompletion(t))
  {
  }

  /** The fields an update may carry; `None` means not supplied. There is
      no id field, so an update can never change a task's id. A supplied
      `due` is itself optional, since it may be cleared. */
  datatype TaskUpdate = TaskUpdate(
    title: Option<string>,
    due: Option<Option<Date>>,
    description: Option<string>,
    completed: Option<bool>)

  /** Supplied fields override, with title and description trimmed;
      everything else is kept. */
  function UpdateTask(t: Task, u: TaskUpdate): (r: Task)
    ensures r.id == t.id
    ensures r.title == if u.title.Some? then Trim(u.title.value) else t.title
    ensures r.description == if u.description.Some? then Some(Trim(u.description.value)) else t.description
    ensures r.due == u.due.GetOr(t.due)
    ensures r.completed == u.completed.GetOr(t.completed)
  {
    Task(
      t.id,
      if u.title.Some? then Trim(u.title.value) else t.title,
      u.due.GetOr(t.due),
      if u.description.Some? then Some(Trim(u.description.value)) else t.description,
      u.completed.GetOr(t.completed))
  }

  /** Applying the same update twice is the same as applying it once. */
  lemma UpdateIdempotent(t: Task, u: TaskUpdate)
    ensures UpdateTask(UpdateTask(t, u), u) == UpdateTask(t, u)
  {
    var once := UpdateTask(t, u);
    var twice := UpdateTask(once, u);
    if u.title.Some? {
      TrimIdempotent(u.title.value);
    }
    if u.description.Some? {
      TrimIdempotent(u.description.value);
    }
    assert twice.title == once.title;
    assert twice.description == once.description;
  }

  // ---------------------------------------------------------------------
  // Filtering

  datatype Filter = All | Completed | Pending

  /** `Array.prototype.filter`: the elements satisfying `p`, in order. */
  function Keep(s: seq<Task>, p: Task -> bool): (r: seq<Task>)
    ensures |r| <= |s|
    ensures forall t :: t in r <==> t in s && p(t)
    ensures forall t :: multiset(r)[t] == if p(t) then multiset(s)[t] else 0
  {
    if s == [] then []
    else if p(s[0]) then
      assert s == [s[0]] + s[1..];
      [s[0]] + Keep(s[1..], p)
    else
      assert s == [s[0]] + s[1..];
      Keep(s[1..], p)
  }

  /** `r` is `s` with some elements left out and the rest in their order. */
  predicate IsSubsequence(r: seq<Task>, s: seq<Task>)
    decreases |s|
  {
    if r == [] then true
    else if s == [] then false
    else if r[0] == s[0] then IsSubsequence(r[1..], s[1..])
    else IsSubsequence(r, s[1..])
  }

  lemma {:induction false} KeepSubsequence(s: seq<Task>, p: Task -> bool)
    ensures IsSubsequence(Keep(s, p), s)
  {
    if s != [] {
      KeepSubsequence(s[1..], p);
    }
  }

  /** Keeping every element returns the sequence itself. */
  lemma {:induction false} KeepAll(s: seq<Task>, p: Task -> bool)
    requires forall i :: 0 <= i < |s| ==> p(s[i])
    ensures Keep(s, p) == s
  {
    if s != [] {
      KeepAll(s[1..], p);
    }
  }

  /** Two complementary filters split a sequence with nothing lost and
      nothing shared. */
  lemma {:induction false} KeepComplement(s: seq<Task>, p: Task -> bool, q: Task -> bool)
    requires forall t :: q(t) == !p(t)
    ensures |Keep(s, p)| + |Keep(s, q)| == |s|
    ensures multiset(Keep(s, p)) + multiset(Keep(s, q)) == multiset(s)
  {
    if s != [] {
      var h, tail := s[0], s[1..];
      KeepComplement(tail, p, q);
      assert s == [h] + tail;
      if p(h) {
        assert Keep(s, p) == [h] + Keep(tail, p) && Keep(s, q) == Keep(tail, q);
      } else {
        assert Keep(s, p) == Keep(tail, p) && Keep(s, q) == [h] + Keep(tail, q);
      }
    }
  }

  lemma {:induction false} KeepIds(s: seq<Task>, p: Task -> bool)
    ensures multiset(Ids(Keep(s, p))) <= multiset(Ids(s))
  {
    if s != [] {
      KeepIds(s[1..], p);
      assert Ids(s) == [s[0].id] + Ids(s[1..]);
    }
  }

  /** Whether the view selected by `f` shows the task `t`. */
  predicate Shows(f: Filter, t: Task) {
    match f
    case All => true
    case Completed => t.completed
    case Pending => !t.completed
  }

  /** The three-way filter: `All` passes the sequence through, the other two
      keep exactly the completed or exactly the pending tasks, in order. */
  function FilterTasks(tasks: seq<Task>, f: Filter): (r: seq<Task>)
    ensures f.All? ==> r == tasks
    ensures forall t :: t in r <==> t in tasks && Shows(f, t)
    ensures forall t :: multiset(r)[t] == if Shows(f, t) then multiset(tasks)[t] else 0
  {
    match f
    case Completed => Keep(tasks, (t: Task) => t.completed)
    case Pending => Keep(tasks, (t: Task) => !t.completed)
    case All => tasks
  }

  /** The completed and the pending views partition the input. */
  lemma FilterPartition(tasks: seq<Task>)
    ensures |FilterTasks(tasks, Completed)| + |FilterTasks(tasks, Pending)| == |tasks|
    ensures multiset(FilterTasks(tasks, Completed)) + multiset(FilterTasks(tasks, Pending)) == multiset(tasks)
  {
    KeepComplement(tasks, (t: Task) => t.completed, (t: Task) => !t.completed);
  }

  /** Every view keeps the input's order, so a sorted input gives a sorted
      view. */
  lemma FilterKeepsOrder(tasks: seq<Task>, f: Filter)
    ensures IsSubsequence(FilterTasks(tasks, f), tasks)
    ensures Sorted(tasks) ==> Sorted(FilterTasks(tasks, f))
  {
    match f
    case Completed =>
      KeepSubsequence(tasks, (t: Task) => t.completed);
      if Sorted(tasks) {
        KeepSorted(tasks, (t: Task) => t.completed);
      }
    case Pending =>
      KeepSubsequence(tasks, (t: Task) => !t.completed);
      if Sorted(tasks) {
        KeepSorted(tasks, (t: Task) => !t.completed);
      }
    case All =>
      SubsequenceReflexive(tasks);
  }

  lemma {:induction false} SubsequenceReflexive(s: seq<Task>)
    ensures IsSubsequence(s, s)
  {
    if s != [] {
      SubsequenceReflexive(s[1..]);
    }
  }

  // ---------------------------------------------------------------------
  // Sorting

  /** The comparator of `sortTasks` returns at most 0 for `(a, b)`: `a` is
      pending and `b` completed, or both agree on completion and `a`'s id
      is not smaller than `b`'s. */
  predicate Precedes(a: Task, b: Task)
    ensures a.completed != b.completed ==> (Precedes(a, b) <==> !a.completed)
  {
    && (a.completed ==> b.completed)
    && (a.completed == b.completed ==> LexLessEq(b.id, a.id))
  }

  lemma PrecedesTotal(a: Task, b: Task)
    ensures Precedes(a, b) || Precedes(b, a)
  {
    LexTotal(a.id, b.id);
  }

  lemma PrecedesTransitive(a: Task, b: Task, c: Task)
    requires Precedes(a, b) && Precedes(b, c)
    ensures Precedes(a, c)
  {
    if a.completed == c.completed {
      LexTransitive(c.id, b.id, a.id);
    }
  }

  /** Pending tasks before completed ones, ids non-increasing within each
      group. */
  ghost predicate Sorted(s: seq<Task>) {
    forall i, j :: 0 <= i < j < |s| ==> Precedes(s[i], s[j])
  }

  /** Dropping the head keeps a sequence sorted. */
  lemma SortedTail(s: seq<Task>)
    requires s != [] && Sorted(s)
    ensures Sorted(s[1..])
  {
    forall i, j | 0 <= i < j < |s| - 1 ensures Precedes(s[1..][i], s[1..][j]) {
      assert s[1..][i] == s[i + 1] && s[1..][j] == s[j + 1];
    }
  }

  /** A sequence stays sorted when an element that may precede all of it
      is put in front. */
  lemma SortedCons(x: Task, s: seq<Task>)
    requires Sorted(s)
    requires forall y :: y in s ==> Precedes(x, y)
    ensures Sorted([x] + s)
  {
    var r := [x] + s;
    forall i, j | 0 <= i < j < |r| ensures Precedes(r[i], r[j]) {
      if i == 0 {
        assert r[j] == s[j - 1];
      } else {
        assert r[i] == s[i - 1] && r[j] == s[j - 1];
      }
    }
  }

  lemma {:induction false} KeepSorted(s: seq<Task>, p: Task -> bool)
    requires Sorted(s)
    ensures Sorted(Keep(s, p))
  {
    if s != [] {
      SortedTail(s);
      KeepSorted(s[1..], p);
      var rest := Keep(s[1..], p);
      assert forall y :: y in rest ==> Precedes(s[0], y) by {
        forall y | y in rest ensures Precedes(s[0], y) {
          var k :| 0 <= k < |s[1..]| && s[1..][k] == y;
          assert s[k + 1] == y;
        }
      }
      if p(s[0]) {
        SortedCons(s[0], rest);
      }
    }
  }

  /** Places `x` before the first element it may precede; ties keep `x`
      in front, which makes the sort stable. */
  function Insert(x: Task, s: seq<Task>): (r: seq<Task>)
    ensures multiset(r) == multiset(s) + multiset{x}
  {
    if s == [] then [x]
    else if Precedes(x, s[0]) then [x] + s
    else
      assert s == [s[0]] + s[1..];
      [s[0]] + Insert(x, s[1..])
  }

  /** Inserting into a sorted sequence leaves it sorted. */
  lemma {:induction false} InsertSorted(x: Task, s: seq<Task>)
    requires Sorted(s)
    ensures Sorted(Insert(x, s))
  {
    if s == [] {
    } else if Precedes(x, s[0]) {
      forall j | 0 <= j < |s| ensures Precedes(x, s[j]) {
        if j > 0 {
          PrecedesTransitive(x, s[0], s[j]);
        }
      }
      SortedCons(x, s);
    } else {
      PrecedesTotal(x, s[0]);
      SortedTail(s);
      InsertSorted(x, s[1..]);
      var rest := Insert(x, s[1..]);
      assert s == [s[0]] + s[1..];
      forall y | y in rest ensures Precedes(s[0], y) {
        assert y in multiset(rest);
        if y != x {
          assert y in s[1..];
        }
      }
      SortedCons(s[0], rest);
    }
  }

  /** `[...tasks].sort(comparator)`: a sorted permutation of the input. */
  function SortTasks(tasks: seq<Task>): (r: seq<Task>)
    ensures Sorted(r)
    ensures multiset(r) == multiset(tasks)
  {
    if tasks == [] then []
    else
      assert tasks == [tasks[0]] + tasks[1..];
      InsertSorted(tasks[0], SortTasks(tasks[1..]));
      Insert(tasks[0], SortTasks(tasks[1..]))
  }

  /** Sorting an already sorted sequence changes nothing. */
  lemma {:induction false} SortSortedIsIdentity(tasks: seq<Task>)
    requires Sorted(tasks)
    ensures SortTasks(tasks) == tasks
  {
    if tasks != [] {
      SortSortedIsIdentity(tasks[1..]);
      assert tasks == [tasks[0]] + tasks[1..];
    }
  }

  lemma {:induction false} InsertIds(x: Task, s: seq<Task>)
    ensures multiset(Ids(Insert(x, s))) == multiset(Ids(s)) + multiset{x.id}
  {
    if s != [] && !Precedes(x, s[0]) {
      InsertIds(x, s[1..]);
      assert Ids(s) == [s[0].id] + Ids(s[1..]);
    }
  }

  /** Sorting keeps the multiset of ids, hence their uniqueness. */
  lemma {:induction false} SortIds(tasks: seq<Task>)
    ensures multiset(Ids(SortTasks(tasks))) == multiset(Ids(tasks))
  {
    if tasks != [] {
      SortIds(tasks[1..]);
      InsertIds(tasks[0], SortTasks(tasks[1..]));
      assert Ids(tasks) == [tasks[0].id] + Ids(tasks[1..]);
    }
  }

  lemma SortKeepsInvariants(tasks: seq<Task>)
    requires UniqueIds(tasks) && AllWellFormed(tasks)
    ensures UniqueIds(SortTasks(tasks)) && AllWellFormed(SortTasks(tasks))
  {
    SortIds(tasks);
    var r := SortTasks(tasks);
    assert forall t :: t in r ==> t in multiset(tasks);
  }

  /** With unique ids the order within a group is strictly descending. */
  lemma SortedUniqueStrict(s: seq<Task>, i: int, j: int)
    requires Sorted(s) && UniqueIds(s)
    requires 0 <= i < j < |s| && s[i].completed == s[j].completed
    ensures LexLessEq(s[j].id, s[i].id) && s[i].id != s[j].id
  {
    UniqueIdsDistinct(s, i, j);
  }
}
