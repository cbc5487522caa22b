# Task store with group-gated progression

This project models the in-memory task manager of a small task-tracking web
application (`web/src/modules/taskManager.ts`). The manager owns one ordered
list of tasks. Each task has an id, a title, a description, a persona, a
group, a section and a completed flag. The manager offers:

- a reset to a seed list, which creates a bootstrap task when the seed is empty;
- views of the active, completed and all tasks;
- creation, where the new id is the last task's id plus one;
- an update that merges a partial record into the first task with a given id;
- deletion of every task with a given id;
- completion by title, followed by the progression rule. When no task of the
  completed task's group is still active, the rule creates the first task of
  the next group.

The Dafny model has five modules:

- `Wrappers` (`wrappers.dfy`): an `Option` type.
- `Decimal` (`decimal.dfy`): how a template literal shows an integer, with a
  parser that inverts it.
- `TaskModel` (`task.dfy`): the `Task` record (`web/src/model/Task.ts:3-20`),
  the partial record `TaskPatch` and the object spread `Merge`.
- `TaskRules` (`rules.dfy`): each operation as a function from the store
  before to the store after. The lemmas state what each operation does, and
  that ids keep increasing in store order.
- `TaskManager` (`manager.dfy`): the class `TaskStore`. Its `tasks` field is
  the module-level array. Where the source pushes onto the array or writes
  one element, the model's methods reassign the field with the new sequence.
  `InitializeTasks`, `CreateTask`, `UpdateTask`, `DeleteTask`, `CompleteTask`
  and `GenerateTasksForGroup` are each proved to leave the store equal to the
  function in `TaskRules`. The last five keep ids increasing when they
  increased before; `InitializeTasks` gives increasing ids when the seed's ids
  increase. The constructor only loads the seed.

The seed list comes from `@/utils/TaskList`, which is not part of this model.
It is a parameter of the constructor and of `InitializeTasks`. The getters
`GetActiveTasks`, `GetCompletedTasks` and `GetAllTasks` return `ActiveOf`,
`CompletedOf` and the store itself. Their contracts state that the two views
split the store.

In two places the code does something other than what one might expect.
The model follows the code both times:

- One might expect a new id to be the largest id plus one. The code uses the
  last task's id plus one (`taskManager.ts:54`). `NextIdIsMaxPlusOne` shows the
  two agree while ids increase in store order. `NextIdMayCollide` shows a
  store with ids out of order where the new id equals an existing one.
- One might expect deletion to remove the single task with the id. The code
  filters out every task with that id (`taskManager.ts:75`). `DeleteEffect`
  states this. `DeleteRemovesOne` shows it is exactly one task while ids are
  unique, in whatever order they stand.

Two quirks of `completeTask` are kept on purpose:

- Completing a task that is already completed fires the rule again
  (`RecompletionAppendsAgain`).
- An unknown title evaluates the rule for group 0 (`CompleteUnknown`).

## Model

| member | source | states |
|---|---|---|
| `TaskModel.Merge` | web/src/modules/taskManager.ts:70 | the merged task keeps the id; every field present in the patch takes the patch's value, every absent one keeps the task's value |
| `TaskModel.MergeNoChanges` | web/src/modules/taskManager.ts:66-72 | an update carrying no fields leaves the task as it was |
| `TaskModel.MergeTitleOnly` | web/src/modules/taskManager.ts:66-72 | an update carrying only a title changes the title and no other field |
| `TaskModel.MergeIdempotent` | web/src/modules/taskManager.ts:70 | merging the same patch twice gives the same task as merging it once |
| `Decimal.NatToString` | web/src/modules/taskManager.ts:48 | a numeral is non-empty and made of digits only; it starts with 0 exactly when n is 0, and 0 is shown as "0" |
| `Decimal.IntToString` | web/src/modules/taskManager.ts:48 | the text starts with a minus sign exactly for negative numbers, followed by the numeral of the magnitude; otherwise it is the decimal numeral |
| `Decimal.ParseNatToString` | web/src/modules/taskManager.ts:48 | parsing the numeral of n gives back n |
| `Decimal.ParseIntToString` | web/src/modules/taskManager.ts:48 | parsing the rendering of any integer gives back that integer |
| `Decimal.IntToStringInjective` | web/src/modules/taskManager.ts:48 | distinct integers render as distinct text |
| `TaskRules.Filter` | web/src/modules/taskManager.ts:14 | the result holds exactly the tasks that satisfy the predicate, keeps their store order, and is the whole store when every task satisfies it |
| `TaskRules.FindId` | web/src/modules/taskManager.ts:67 | the index returned holds a task with the id and no earlier task has it; no index exactly when no task has the id |
| `TaskRules.FindTitle` | web/src/modules/taskManager.ts:26 | the index returned is that of the first task with the title; no index exactly when no task has the title |
| `TaskRules.FilterSplit` | web/src/modules/taskManager.ts:13-19 | filtering by a predicate and by its negation together give the store's length and its multiset of tasks |
| `TaskManager.TaskStore.GetActiveTasks` | web/src/modules/taskManager.ts:13-15 | the view holds exactly the store's tasks that are not completed, in store order, each as many times as the store does |
| `TaskManager.TaskStore.GetCompletedTasks` | web/src/modules/taskManager.ts:17-19 | the view holds exactly the completed tasks, in store order; with the active view it makes up the store's multiset of tasks |
| `TaskManager.TaskStore.GetAllTasks` | web/src/modules/taskManager.ts:21-23 | the store itself, in store order; its length is the sum of the two views' lengths, its multiset is theirs combined, and a task is in it exactly when it is in one of the views |
| `TaskRules.ActiveCompletedPartition` | web/src/modules/taskManager.ts:13-19 | every task is in exactly one of the active and completed views, both keep store order, and together they hold every task as often as the store does |
| `TaskRules.IdsIncreasingUnique` | web/src/modules/taskManager.ts:54 | ids that increase in store order are unique |
| `TaskRules.SubsequenceMembers` | web/src/modules/taskManager.ts:75 | every task of an order-preserving selection is in the original store |
| `TaskRules.SubsequenceKeepsIdsIncreasing` | web/src/modules/taskManager.ts:75 | an order-preserving selection of a store with increasing ids has increasing ids |
| `TaskRules.NextId` | web/src/modules/taskManager.ts:54 | while ids increase, the new id exceeds every id in the store |
| `TaskRules.NextIdIsMaxPlusOne` | web/src/modules/taskManager.ts:54 | while ids increase, the new id exceeds every id in the store and is the largest id plus one |
| `TaskRules.NextIdMayCollide` | web/src/modules/taskManager.ts:54 | with ids out of order, the last id plus one can equal an id already in the store |
| `TaskRules.AfterCreate` | web/src/modules/taskManager.ts:52-64 | creation adds one task at the end; it has the next id and is not completed |
| `TaskRules.CreateAppends` | web/src/modules/taskManager.ts:52-64 | creation appends exactly one task at the end, with the given fields, not completed, and id equal to the last id plus one or 1; earlier tasks are unchanged; ids keep increasing and the new id is fresh |
| `TaskRules.AfterInitialize` | web/src/modules/taskManager.ts:6-11 | a reset gives the seed itself, or, for an empty seed, exactly the task with id 1, title "First Task", persona "User", group 1, section 1, not completed |
| `TaskRules.AfterUpdate` | web/src/modules/taskManager.ts:66-72 | an update keeps the length and the id at every position |
| `TaskRules.UpdateEffect` | web/src/modules/taskManager.ts:66-72 | an update keeps the length and every id and position; it merges the patch into the first task with the id and changes no other task; an absent id leaves the store unchanged |
| `TaskRules.UpdatePreservesIds` | web/src/modules/taskManager.ts:70 | an update keeps ids increasing |
| `TaskRules.AfterDelete` | web/src/modules/taskManager.ts:74-76 | a task remains exactly when it was in the store with a different id; the rest keep their store order |
| `TaskRules.DeleteEffect` | web/src/modules/taskManager.ts:74-76 | deletion removes every task with the id, keeps each other task as many times as the store held it and in store order, leaves the store unchanged when the id is absent, and keeps ids increasing |
| `TaskRules.DeleteRemovesOne` | web/src/modules/taskManager.ts:74-76 | while no two tasks share an id, in whatever order, deleting a present id removes exactly one task |
| `TaskRules.Marked` | web/src/modules/taskManager.ts:26-30 | marking keeps the length, and changes nothing when no task has the title |
| `TaskRules.ActiveGroup` | web/src/modules/taskManager.ts:32 | the group is 0 when no task has the title; otherwise it is 0 or the group of a task with that title |
| `TaskRules.GroupCompleted` | web/src/modules/taskManager.ts:35-37 | true exactly when every task of the group is completed, in particular when the group has no task |
| `TaskRules.Generated` | web/src/modules/taskManager.ts:47-49 | n rounds of the loop add exactly n tasks |
| `TaskRules.NextGroupTaskText` | web/src/modules/taskManager.ts:48 | the generated task reads "Task {g}-1", "Task in group {g}, section 1.", persona "User", group g, section 1, not completed |
| `TaskRules.GeneratedTitleInjective` | web/src/modules/taskManager.ts:48 | the generated titles of two different groups differ |
| `TaskRules.GenerateAppendsOne` | web/src/modules/taskManager.ts:46-50 | generating a group appends exactly one task: title "Task {g}-1", description "Task in group {g}, section 1.", persona "User", group g, section 1, not completed |
| `TaskRules.AfterComplete` | web/src/modules/taskManager.ts:25-44 | completion adds at most one task |
| `TaskRules.CompleteFound` | web/src/modules/taskManager.ts:25-44 | completing a present title marks the first task with that title and no other; one next-group task is appended exactly when every other task of that task's group is completed, otherwise the length is unchanged |
| `TaskRules.CompleteUnknown` | web/src/modules/taskManager.ts:32-43 | an unknown title marks nothing and appends `Task 1-1` exactly when no task of group 0 is active |
| `TaskRules.CompleteFires` | web/src/modules/taskManager.ts:40-43 | when the group is complete after marking, the store is the marked store plus the next group's first task |
| `TaskRules.CompletePreservesIds` | web/src/modules/taskManager.ts:25-50 | completion keeps ids increasing |
| `TaskRules.FiredStoreFacts` | web/src/modules/taskManager.ts:25-43 | after a completion that fired the rule, the title is found at the same index as before, marking it again changes nothing, the active group is the same, and that group has no active task |
| `TaskRules.RecompletionAppendsAgain` | web/src/modules/taskManager.ts:25-43 | completing the same title again after the rule fired appends a second task for the same next group |
| `TaskRules.ScenarioInitialSetup` | web/src/modules/taskManager.ts:25-50 | completing the only task of group 1 completes it and appends task 2, `Task 2-1`, group 2, section 1; the completed view is that one task |
| `TaskRules.ScenarioCreateTwice` | web/src/modules/taskManager.ts:52-64 | two creations in an empty store get ids 1 and 2 |
| `TaskManager.TaskStore.constructor` | web/src/modules/taskManager.ts:4 | the store starts as the seed list, without a bootstrap task |
| `TaskManager.TaskStore.InitializeTasks` | web/src/modules/taskManager.ts:6-11 | the store becomes the seed, or the single bootstrap task when the seed is empty |
| `TaskManager.TaskStore.CompleteTask` | web/src/modules/taskManager.ts:25-44 | the store becomes the marked store, plus at most one appended task, as the progression rule demands; ids keep increasing |
| `TaskManager.TaskStore.GenerateTasksForGroup` | web/src/modules/taskManager.ts:46-50 | the loop over sections appends exactly the group's section-1 task; ids keep increasing |
| `TaskManager.TaskStore.CreateTask` | web/src/modules/taskManager.ts:52-64 | the store gains one task at the end with the next id and the given fields; ids keep increasing |
| `TaskManager.TaskStore.UpdateTask` | web/src/modules/taskManager.ts:66-72 | the first task with the id is merged with the patch; length and ids are kept; an absent id changes nothing |
| `TaskManager.TaskStore.DeleteTask` | web/src/modules/taskManager.ts:74-76 | the store keeps, in order, exactly the tasks with a different id; an absent id changes nothing |

## Left out

- The HTTP handlers (`web/src/pages/api/tasks.ts`, `web/src/pages/api/hello.ts`) and the UI (`web/src/pages/_app.tsx`): request parsing, status codes, rendering and the debounce timer are outside the store. The handlers only call the store's functions.
- `@/utils/TaskList` is not part of this model. Its seed list is a parameter.
- Object aliasing: tasks are values here. In the source the reset copies the seed array shallowly (`taskManager.ts:7`), and completion sets the flag on the shared object (`:29`). So a reset there does not clear flags that earlier completions set on seed objects. The model's reset restores the seed as given.
- `getAllTasks` returns the live array, so a caller could change the store through it. The model returns the store's value.
- `TaskModel.Merge`: a patch key that is present with the value `undefined` overwrites the field with `undefined` in the source. Keys outside the task's fields, which the PUT handler passes through, are also added to the task. The model's patch has only the six typed fields, each present or absent.
- JavaScript numbers are modelled as unbounded integers. Fractions, `NaN`, a missing section and the loss of precision above 2^53 are not modelled.
- `Decimal.IntToString`: it does not model the exponent notation a template literal uses for magnitudes of 10^21 and above.
- An unknown title gives group 0 (`task?.group || 0`, `taskManager.ts:32`), as does a found task whose group is 0. A task without a group, which the source's `||` would also turn into 0 but its `===` filter at `:36` would not count, is not modelled: every task has an integer group.
