/** Client code driving a fresh store through short sessions; each
    assertion follows from the store's contracts alone. */
module Scenarios {
  import opened JsStrings
  import opened TaskModel
  import opened TaskService
  import opened UseTasks

  method AddOneTask() {
    var store := new TaskStore();
    assert !IsWhitespace("Buy milk"[0]);
    var r := store.AddTask("1", "Buy milk", None, None);
    assert r == Accepted;
    assert store.Stats() == TaskStats(1, 0, 1);
    var milk := CreateTask("1", "Buy milk", None, None);
    assert store.tasks == [milk];
    assert store.VisibleTasks() == [milk] && !milk.completed;
  }

  method BlankTitleIsRejected() {
    var store := new TaskStore();
    var r := store.AddTask("1", "", None, None);
    assert r == Rejected(EmptyTitle) && store.tasks == [];
  }

  lemma OneLetterTitleAccepted(c: char)
    requires !IsWhitespace(c)
    ensures ValidateTask([c], None) == Accepted
  {
    assert [c][0] == c;
  }

  lemma SortPair(x: Task, y: Task)
    requires !Precedes(x, y)
    ensures SortTasks([x]) == [x]
    ensures SortTasks([x, y]) == [y, x]
  {
    PrecedesTotal(x, y);
    assert [x, y][1..] == [y];
    assert SortTasks([y]) == [y];
  }

  /** Two pending tasks: the later id comes first. */
  method NewerFirst() returns (store: TaskStore)
    ensures fresh(store) && store.Valid()
    ensures store.tasks == [CreateTask("2", "B", None, None), CreateTask("1", "A", None, None)]
  {
    store := FirstTask();
    OneLetterTitleAccepted('B');
    AppendNewer(CreateTask("1", "A", None, None), CreateTask("2", "B", None, None));
    var r := store.AddTask("2", "B", None, None);
  }

  /** Adding pending task "2" after pending task "1" puts it in front. */
  lemma AppendNewer(a: Task, b: Task)
    requires !a.completed && !b.completed && a.id == "1" && b.id == "2"
    ensures "2" !in Ids([a])
    ensures SortTasks([a] + [b]) == [b, a]
  {
    assert Ids([a]) == ["1"];
    assert !LexLessEq("2", "1");
    SortPair(a, b);
    assert [a] + [b] == [a, b];
  }

  method FirstTask() returns (store: TaskStore)
    ensures fresh(store) && store.Valid()
    ensures store.tasks == [CreateTask("1", "A", None, None)]
  {
    OneLetterTitleAccepted('A');
    store := new TaskStore();
    var r := store.AddTask("1", "A", None, None);
    assert SortTasks([CreateTask("1", "A", None, None)]) == [CreateTask("1", "A", None, None)];
  }

  /** Completing the older task keeps it last: pending before completed
      outranks the id order. */
  method PendingFirst() {
    var store := NewerFirst();
    var a, b := CreateTask("1", "A", None, None), CreateTask("2", "B", None, None);
    CompletingOlderKeepsOrder(a, b);
    store.ToggleTask("1");
    assert store.tasks == [b, ToggleTaskCompletion(a)];
    OneOfTwoCompleted(b, ToggleTaskCompletion(a));
    assert store.Stats().completed == 1;
  }

  lemma CompletingOlderKeepsOrder(a: Task, b: Task)
    requires !a.completed && !b.completed && a.id == "1" && b.id == "2"
    ensures SortTasks(ToggledById([b, a], "1")) == [b, ToggleTaskCompletion(a)]
  {
    var done := ToggleTaskCompletion(a);
    assert ToggledById([b, a], "1") == [b, done];
    SortPair(done, b);
  }

  lemma OneOfTwoCompleted(open: Task, done: Task)
    requires !open.completed && done.completed
    ensures |FilterTasks([open, done], Completed)| == 1
  {
    var r := FilterTasks([open, done], Completed);
    assert multiset([open, done]) == multiset{open, done};
    assert multiset(r) == multiset{done};
    assert |r| == |multiset(r)|;
  }

  method DescriptionOnlyUpdate() {
    var store := new TaskStore();
    assert !IsWhitespace("A"[0]);
    var r := store.AddTask("1", "A", None, None);
    ghost var before := store.tasks;
    r := store.UpdateTask("1", TaskUpdate(None, None, Some("note"), None));
    assert r == Rejected(EmptyTitle) && store.tasks == before;
  }
}
