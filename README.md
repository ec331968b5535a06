# Task list domain logic, modelled in Dafny

This project models the domain logic of a small to-do app written in
TypeScript and proves properties of it. The model has two layers over the
`Task` record: `id`, `title`, an optional `due` date, an optional
`description` and a `completed` flag.

- **The task service** (`services/TaskService.ts`) is a set of stateless
  functions: validation of a title and description, creation of a pending
  task, toggling completion, merging a partial update into a task, the
  three-way filter (all, completed, pending) and the two-key sort. The sort
  puts pending tasks before completed ones, then orders ids from greatest
  to smallest.
- **The task store** (`hooks/useTasks.ts`) holds the canonical task list
  and the active filter. Its actions (add, toggle, delete, update, clear
  completed) replace that list. It also has two derived views: the tasks
  the filter shows and the counts.

Files, one module each:

- `js_strings.dfy` (`JsStrings`): the JavaScript string primitives the
  logic uses.
  - `trim` strips the ECMAScript WhiteSpace and LineTerminator code points
    from both ends.
  - `length` counts UTF-16 code units, so a code point above U+FFFF counts
    twice.
  - The order `localeCompare` induces is modelled as code-point
    lexicographic order, proved total, antisymmetric and transitive.
- `task.dfy` (`TaskModel`): the `Task` datatype, well-formedness (what
  validation guarantees of a stored task), the id sequence of a task list
  and id uniqueness.
- `task_service.dfy` (`TaskService`): the service functions, each with
  its partner lemma. `sortTasks` is a stable insertion sort, proved to
  return a sorted permutation of its input.
- `use_tasks.dfy` (`UseTasks`): the store.
  - It is a class `TaskStore` with fields `tasks` and `filter`.
  - Actions are `modifies this` methods. An action that throws in the app
    returns `Rejected(error)` here and leaves the state unchanged.
  - The store invariant holds after every action: the list is sorted, no
    id occurs twice, and every task is trimmed and within the length limits.
  - Module-level lemmas prove that each action preserves the invariant.
- `scenarios.dfy` (`Scenarios`): short client sessions on a fresh store.
  Their assertions follow from the store's contracts alone.

An update that supplies a description but no title is validated against
the empty title (`hooks/useTasks.ts:71-75`), so it is always rejected with
"Task title is required". The model keeps this behaviour as the code has
it: `UseTasks.UpdateValidation`, `UseTasks.DescriptionOnlyUpdateRejected`
and `Scenarios.DescriptionOnlyUpdate` state it.

The title check is `length > 100` (`services/TaskService.ts:92`), so a
trimmed title of exactly 100 code units passes, although the message says
"less than 100 characters". The description check (500) behaves the same
way. The model keeps the checks as written, and `TaskService.ValidateTask`
states the bounds exactly.

## Model

| member | source | states |
|---|---|---|
| JsStrings.IsWhitespace | services/TaskService.ts:21 | the characters `trim` strips: the ECMAScript WhiteSpace and LineTerminator code points |
| JsStrings.TrimStart | services/TaskService.ts:21 | the leading characters it drops are all whitespace, and what remains does not start with whitespace |
| JsStrings.TrimStartIsSuffix | services/TaskService.ts:21 | trimming the start yields a suffix of the input |
| JsStrings.TrimEnd | services/TaskService.ts:21 | the trailing characters it drops are all whitespace, and what remains does not end with whitespace |
| JsStrings.TrimEndIsPrefix | services/TaskService.ts:21 | trimming the end yields a prefix of the input |
| JsStrings.Trim | services/TaskService.ts:88 | `trim` never lengthens, leaves no whitespace at either end, and gives the empty string exactly when the input is all whitespace |
| JsStrings.TrimIsInfix | services/TaskService.ts:21-22 | the trimmed string is a contiguous slice of the input, and only whitespace lies outside it on either side |
| JsStrings.TrimNoop | services/TaskService.ts:45-46 | a string with no whitespace at either end is left unchanged |
| JsStrings.TrimIdempotent | services/TaskService.ts:45-46 | trimming twice equals trimming once |
| JsStrings.CodeUnits | services/TaskService.ts:92 | `length` in UTF-16 code units lies between the number of code points and twice that |
| JsStrings.CodeUnitsConcat | services/TaskService.ts:92 | code units add up over concatenation, so `length` is a per-character sum |
| JsStrings.CodeUnitsBasicPlane | services/TaskService.ts:92 | a string with no character above U+FFFF has `length` equal to its character count |
| JsStrings.CodeUnitsSupplementary | services/TaskService.ts:92 | a character above U+FFFF counts as two code units |
| JsStrings.LexLessEq | services/TaskService.ts:77 | the order `localeCompare` induces on ids, taken as code-point lexicographic order: a prefix sorts no later than any extension of it |
| JsStrings.LexReflexive | services/TaskService.ts:77 | every id compares equal to itself |
| JsStrings.LexTotal | services/TaskService.ts:77 | any two ids are comparable |
| JsStrings.LexAntisymmetric | services/TaskService.ts:77 | two ids each no greater than the other are equal |
| JsStrings.LexTransitive | services/TaskService.ts:77 | the id order is transitive |
| TaskModel.Task | models/Task.ts:1-7 | the task record: id, title, optional due date (absent and `null` alike), optional description, completion flag |
| TaskModel.Ids | models/Task.ts:2 | the id sequence has one entry per task, in order |
| TaskModel.IdsConcat | hooks/useTasks.ts:29 | the ids of a concatenation are the concatenated ids |
| TaskModel.UniqueIdsDistinct | hooks/useTasks.ts:28-29 | in a list with unique ids, two different positions carry different ids |
| TaskService.ErrorMessage | services/TaskService.ts:88-104 | the message reported for each failed check, as the source words it |
| TaskService.ErrorMessagesDistinct | services/TaskService.ts:88-104 | the three validation messages are pairwise different, so the message identifies the failed check |
| TaskService.ValidateTask | services/TaskService.ts:84-107 | each outcome holds exactly under its condition. Blank-after-trim title: "required", regardless of the description. Title over 100 code units: "too long". Acceptable title with a supplied description over 500 code units: description too long. Otherwise accepted, so exactly 100 and exactly 500 pass and an absent description is never rejected |
| TaskService.CreateTask | services/TaskService.ts:18-26 | the new task has the supplied id, `completed = false`, the trimmed title and the trimmed description ("" when absent), and `due` is passed through unchanged |
| TaskService.CreateWellFormedIffValid | hooks/useTasks.ts:21-28 | the created task is well-formed exactly when validation accepts its inputs |
| TaskService.ToggleTaskCompletion | services/TaskService.ts:31-36 | `completed` is flipped and every other field is unchanged |
| TaskService.ToggleInvolution | services/TaskService.ts:31-36 | toggling twice gives back the original task |
| TaskService.ToggleKeepsWellFormed | services/TaskService.ts:31-36 | toggling keeps a well-formed task well-formed |
| TaskService.TaskUpdate | services/TaskService.ts:41 | a partial task without an id: each of title, due, description and completed is supplied or not, and a supplied due may be `null` |
| TaskService.UpdateTask | services/TaskService.ts:41-48 | the id is kept. A supplied title or description replaces the old one, trimmed. A supplied `due` or `completed` overrides the old value. Every unsupplied field is kept |
| TaskService.UpdateIdempotent | services/TaskService.ts:41-48 | applying the same update twice equals applying it once |
| TaskService.Keep | services/TaskService.ts:59-61 | `filter` keeps exactly the elements satisfying the predicate, each as many times as it occurs in the input, and never lengthens |
| TaskService.KeepSubsequence | services/TaskService.ts:59-61 | the filtered list is a subsequence of the input, with order preserved |
| TaskService.KeepAll | hooks/useTasks.ts:60 | a filter that every element passes returns the input unchanged |
| TaskService.KeepComplement | services/TaskService.ts:59-61 | two complementary filters split the input: their lengths sum to its length and their multisets sum to its multiset |
| TaskService.KeepIds | hooks/useTasks.ts:60 | filtering can only remove ids, never add them |
| TaskService.Filter | hooks/useTasks.ts:5 | the three view selectors "all", "completed" and "pending" |
| TaskService.Shows | services/TaskService.ts:57-63 | which tasks a view selects: all, only the completed, or only the pending |
| TaskService.FilterTasks | services/TaskService.ts:53-65 | "all" returns the input itself. "completed" and "pending" contain exactly the completed or the pending tasks, with their multiplicities |
| TaskService.FilterPartition | services/TaskService.ts:57-61 | the completed and the pending views partition the input, in length and in multiset |
| TaskService.FilterKeepsOrder | services/TaskService.ts:53-65 | every view is a subsequence of the input, and a sorted input gives a sorted view |
| TaskService.SubsequenceReflexive | services/TaskService.ts:62-63 | the "all" view, the input itself, is trivially a subsequence |
| TaskService.Precedes | services/TaskService.ts:71-78 | the comparator's "at most 0" relation: of a pending and a completed task, the pending one comes first; within the same status, the greater id comes first |
| TaskService.PrecedesTotal | services/TaskService.ts:71-78 | the comparator relates any two tasks in at least one direction |
| TaskService.PrecedesTransitive | services/TaskService.ts:71-78 | the comparator's order is transitive, so the sort is well-defined |
| TaskService.SortedTail | services/TaskService.ts:70-79 | dropping the first task keeps a list sorted |
| TaskService.SortedCons | services/TaskService.ts:70-79 | putting a task that may precede every element in front keeps a list sorted |
| TaskService.KeepSorted | hooks/useTasks.ts:60 | filtering a sorted list leaves it sorted |
| TaskService.Insert | services/TaskService.ts:70-79 | inserting adds exactly one occurrence of the task |
| TaskService.InsertSorted | services/TaskService.ts:70-79 | inserting into a sorted list gives a sorted list |
| TaskService.SortTasks | services/TaskService.ts:70-79 | the result is a permutation of the input in which pending tasks precede completed ones and ids are non-increasing within each group |
| TaskService.SortSortedIsIdentity | services/TaskService.ts:70-79 | sorting an already sorted list changes nothing |
| TaskService.InsertIds | services/TaskService.ts:70-79 | inserting adds exactly the inserted task's id to the multiset of ids |
| TaskService.SortIds | services/TaskService.ts:70-79 | sorting keeps the multiset of ids |
| TaskService.SortKeepsInvariants | services/TaskService.ts:70-79 | sorting keeps ids unique and every task well-formed |
| TaskService.SortedUniqueStrict | services/TaskService.ts:76-77 | with unique ids, ids strictly decrease within each completion group of a sorted list |
| UseTasks.MapById | hooks/useTasks.ts:44-46 | the result has the same length, the tasks with the id are rewritten, and all other tasks are unchanged in their positions |
| UseTasks.ToggledById | hooks/useTasks.ts:44-46 | every position keeps its id and every field but `completed`, which changes exactly at the tasks carrying the id |
| UseTasks.UpdatedById | hooks/useTasks.ts:84-86 | the length and every id are kept, each task carrying the id becomes `updateTask` of it, and tasks with another id are unchanged |
| UseTasks.WithoutId | hooks/useTasks.ts:60 | the remaining tasks are exactly those with another id, each with its multiplicity |
| UseTasks.MapByIdUnknown | hooks/useTasks.ts:44-46 | an id no task carries leaves the list unchanged |
| UseTasks.MapByIdIds | hooks/useTasks.ts:84-86 | rewriting with an id-preserving function keeps the id sequence |
| UseTasks.UpdateValidation | hooks/useTasks.ts:71-79 | an update touching neither text field passes. One with a title is judged by validating that title with the supplied description. One with a description alone is rejected as "Task title is required" |
| UseTasks.UpdateValidationAccepts | hooks/useTasks.ts:71-79 | an update passes exactly when it touches neither text field, or when it supplies a title that validates together with the supplied description |
| UseTasks.DescriptionOnlyUpdateRejected | hooks/useTasks.ts:71-75 | an update supplying a description but no title is rejected as "Task title is required" |
| UseTasks.AcceptedUpdateKeepsWellFormed | hooks/useTasks.ts:71-86 | an update that passes validation keeps a well-formed task well-formed |
| UseTasks.AddKeepsInvariant | hooks/useTasks.ts:21-29 | adding a validated task with a new id to a valid list keeps it sorted, id-unique and well-formed |
| UseTasks.AppendKeepsIdsAndForm | hooks/useTasks.ts:29 | appending a well-formed task with a new id keeps ids unique and tasks well-formed |
| UseTasks.MapKeepsIdsAndForm | hooks/useTasks.ts:44-46 | rewriting with an id-preserving, well-formedness-preserving function keeps both properties |
| UseTasks.ToggleKeepsInvariant | hooks/useTasks.ts:43-47 | toggle-and-resort keeps the store invariant, and for an unknown id it returns the list unchanged |
| UseTasks.UpdateKeepsInvariant | hooks/useTasks.ts:83-88 | an accepted update-and-resort keeps the store invariant, and for an unknown id it returns the list unchanged |
| UseTasks.DeleteKeepsInvariant | hooks/useTasks.ts:60 | deleting keeps the invariant, removes exactly the tasks with the id, keeps the rest in order, and for an unknown id changes nothing |
| UseTasks.ClearKeepsInvariant | hooks/useTasks.ts:102 | clearing the completed tasks keeps the invariant and the order of the pending ones |
| UseTasks.TaskStats | hooks/useTasks.ts:110-114 | the three counts `total`, `completed` and `pending` |
| UseTasks.TaskStore.constructor | hooks/useTasks.ts:12-13 | the store starts with no tasks and the filter "all", and the invariant holds |
| UseTasks.TaskStore.VisibleTasks | hooks/useTasks.ts:109 | the visible list holds exactly the stored tasks the active filter shows, in stored order, and is sorted |
| UseTasks.TaskStore.Stats | hooks/useTasks.ts:110-114 | `total` is the length of the whole list whatever the filter, and `completed` and `pending` are the sizes of the completed and the pending views, which hold exactly the tasks in that state. They sum to `total`, and each is zero exactly when no task is in that state |
| UseTasks.TaskStore.SetFilter | hooks/useTasks.ts:13 | only the filter changes |
| UseTasks.TaskStore.AddTask | hooks/useTasks.ts:19-35 | returns the validation result. On rejection the tasks are unchanged. On acceptance the list is the sorted old list plus exactly one created task. The invariant holds afterwards |
| UseTasks.TaskStore.ToggleTask | hooks/useTasks.ts:40-52 | the list becomes the re-sorted list with that id's task flipped, as a permutation of the flipped list. An unknown id changes nothing. The invariant holds |
| UseTasks.TaskStore.DeleteTask | hooks/useTasks.ts:57-64 | removes exactly the tasks with the id and keeps the rest in order. An unknown id is a no-op. The invariant holds |
| UseTasks.TaskStore.UpdateTask | hooks/useTasks.ts:69-94 | returns the validation result of the update. On rejection the tasks are unchanged. On acceptance the list is the re-sorted list with the update applied to that id's task. An unknown id changes nothing. The invariant holds |
| UseTasks.TaskStore.ClearCompleted | hooks/useTasks.ts:99-106 | leaves exactly the pending tasks in their order, so the completed count becomes 0 and the total equals the old pending count |
| Scenarios.OneLetterTitleAccepted | services/TaskService.ts:88-106 | a one-character non-blank title with no description passes validation |
| Scenarios.SortPair | services/TaskService.ts:70-79 | two tasks out of comparator order are swapped by the sort |
| Scenarios.FirstTask | hooks/useTasks.ts:19-35 | adding one task to a fresh store leaves exactly that created task |
| Scenarios.AppendNewer | hooks/useTasks.ts:29 | appending pending task "2" after pending task "1" sorts it to the front |
| Scenarios.NewerFirst | hooks/useTasks.ts:29 | after adding tasks "1" then "2", the store holds "2" before "1" |
| Scenarios.CompletingOlderKeepsOrder | hooks/useTasks.ts:43-47 | completing task "1" in the list ["2", "1"] keeps it after the pending task "2" |
| Scenarios.OneOfTwoCompleted | hooks/useTasks.ts:112 | a list of one pending and one completed task counts one completed task |
| Scenarios.AddOneTask | hooks/useTasks.ts:19-35 | adding a valid task to a fresh store is accepted, gives counts (1, 0, 1), and the task is visible and pending |
| Scenarios.BlankTitleIsRejected | hooks/useTasks.ts:21-24 | an empty title is rejected as "Task title is required" and the store stays empty |
| Scenarios.PendingFirst | hooks/useTasks.ts:40-52 | in the list ["2", "1"], completing "1" keeps it last, and one task counts as completed |
| Scenarios.DescriptionOnlyUpdate | hooks/useTasks.ts:71-78 | a description-only update of a stored task is rejected as "Task title is required" and the tasks are unchanged |

## Left out

- `generateId` (`services/TaskService.ts:11-13`) reads the clock and a random source. The id is a parameter of `CreateTask` and `TaskStore.AddTask` instead.
- TaskStore.AddTask: requires the supplied id to be new. This stands in for drawing a fresh id from the clock and a random source, which `generateId` practically guarantees and the model cannot express.
- The React machinery is not modelled: `useState`, `useCallback`, updater batching, `async`/`Promise` and the `isLoading` flag. The actions are synchronous methods. A thrown validation error becomes the returned `Rejected(error)`, and `TaskService.ErrorMessage` maps each error to its message.
- The UI components (the modal, list items, stats and empty-state views) only render and duplicate the blank-title check.
- The `localeCompare` collation of the host locale is modelled as code-point lexicographic order. Generated ids use only digits and lower-case letters, which common locales order the same way; locale tailoring is not captured.
- `trim` uses a fixed code-point list: the space separators of the Unicode version the list was taken from, plus the other ECMAScript whitespace and line terminators. Later Unicode additions are not tracked.
- A Dafny `string` is a sequence of Unicode scalar values, so a JavaScript string holding an unpaired surrogate code unit has no counterpart in the model. `trim` and `length` accept such strings, but the model cannot state what they do on them.
- `Date` has no semantics here. `due` is an opaque value the logic only copies.
- An update's `due` or `completed` key present with the value `undefined` is not modelled. Object spread copies such a key into the task, which the model treats as not supplied. An explicit `due: null` is modelled, as a supplied `None`.
- TaskService.SortTasks: the order among tasks that tie under the comparator is stable insertion order, as in JavaScript's stable `Array.prototype.sort`, but the contract does not state it. Ties need equal completion and equal ids, which the store invariant excludes.
