/** The `Task` record and the facts about collections of tasks that the
    service and the store share. */
module TaskModel {
  import opened JsStrings

  datatype Option<T> = None | Some(value: T) {
    function GetOr(default: T): T {
      match this
      case Some(v) => v
      case None => default
    }
  }

  /** A calendar date. The task logic never inspects it, so it stays opaque. */
  datatype Date = Date(epochMillis: int)

  /** `due` absent and `due: null` are both `None`. */
  datatype Task = Task(
    id: string,
    title: string,
    due: Option<Date>,
    description: Option<string>,
    completed: bool)

  /** What validation guarantees of a stored task: trimmed text, a title of
      1 to 100 code units, a description of at most 500. */
  predicate WellFormed(t: Task) {
    && IsTrimmed(t.title)
    && 0 < CodeUnits(t.title) <= 100
    && (t.description.Some? ==>
          IsTrimmed(t.description.value) && CodeUnits(t.description.value) <= 500)
  }

  predicate AllWellFormed(s: seq<Task>) {
    forall t :: t in s ==> WellFormed(t)
  }

  /** The ids of `s`, in order. */
  function Ids(s: seq<Task>): (r: seq<string>)
    ensures |r| == |s|
    ensures forall i :: 0 <= i < |s| ==> r[i] == s[i].id
  {
    if s == [] then [] else [s[0].id] + Ids(s[1..])
  }

  lemma {:induction false} IdsConcat(a: seq<Task>, b: seq<Task>)
    ensures Ids(a + b) == Ids(a) + Ids(b)
  {
    forall i | 0 <= i < |a + b| ensures Ids(a + b)[i] == (Ids(a) + Ids(b))[i] {
      if i < |a| {
        assert (a + b)[i] == a[i];
      } else {
        assert (a + b)[i] == b[i - |a|];
      }
    }
  }

  /** No id occurs twice. */
  ghost predicate UniqueIds(s: seq<Task>) {
    forall id :: multiset(Ids(s))[id] <= 1
  }

  /** Uniqueness read index-wise: two positions never share an id. */
  lemma UniqueIdsDistinct(s: seq<Task>, i: int, j: int)
    requires UniqueIds(s)
    requires 0 <= i < j < |s|
    ensures s[i].id != s[j].id
  {
    var ids := Ids(s);
    var x, y := ids[i], ids[j];
    assert ids == ids[..i] + [x] + (ids[i + 1..j] + [y] + ids[j + 1..]);
    var m := multiset(ids[..i]) + multiset{x} + multiset(ids[i + 1..j]) + multiset{y} + multiset(ids[j + 1..]);
    assert multiset(ids) == m;
    assert m[x] >= multiset{x}[x] + multiset{y}[x];
  }
}
