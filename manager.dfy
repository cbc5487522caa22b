/**
 * The task manager: one ordered store of tasks, which each operation
 * reassigns. Every operation is proved to leave the store equal to the
 * matching function of module TaskRules. Each keeps ids increasing when they
 * increased before; `InitializeTasks` gives increasing ids when the seed's
 * ids increase.
 */
module TaskManager {
  import opened TaskModel
  import opened TaskRules

  /** The module-level `tasks` array and the functions exported beside it. */
  class TaskStore {
    var tasks: seq<Task>

    /** The store as the module loads it: a copy of the seed list, with no bootstrap task. */
    constructor (seed: seq<Task>)
      ensures tasks == seed
    {
      tasks := seed;
    }

    /** `initializeTasks`: reload the seed; an empty seed gets the bootstrap task. */
    method InitializeTasks(seed: seq<Task>)
      modifies this
      ensures tasks == AfterInitialize(seed)
      ensures seed != [] ==> tasks == seed
      ensures seed == [] ==> tasks == [FirstTask]
      ensures IdsIncreasing(seed) ==> IdsIncreasing(tasks)
    {
      tasks := seed;
      if |tasks| == 0 {
        CreateTask("First Task", "This is the first task.", "User", 1, 1);
      }
    }

    /** `getActiveTasks`: the tasks not yet completed, in store order. */
    function GetActiveTasks(): (r: seq<Task>)
      reads this
      ensures forall t :: t in r <==> t in tasks && !t.completed
      ensures SubsequenceOf(r, tasks)
      ensures multiset(r) + multiset(CompletedOf(tasks)) == multiset(tasks)
    {
      ActiveCompletedPartition(tasks);
      ActiveOf(tasks)
    }

    /**
     * `getCompletedTasks`: the completed tasks, in store order. With the
     * active view it splits the store, each task going to exactly one side.
     */
    function GetCompletedTasks(): (r: seq<Task>)
      reads this
      ensures forall t :: t in r <==> t in tasks && t.completed
      ensures SubsequenceOf(r, tasks)
      ensures multiset(GetActiveTasks()) + multiset(r) == multiset(tasks)
    {
      ActiveCompletedPartition(tasks);
      CompletedOf(tasks)
    }

    /** `getAllTasks`: the whole store, in store order, which the two views together make up. */
    function GetAllTasks(): (r: seq<Task>)
      reads this
      ensures r == tasks
      ensures multiset(r) == multiset(GetActiveTasks()) + multiset(GetCompletedTasks())
      ensures |r| == |GetActiveTasks()| + |GetCompletedTasks()|
      ensures forall t :: t in r <==> t in GetActiveTasks() || t in GetCompletedTasks()
    {
      ActiveCompletedPartition(tasks);
      tasks
    }

    /**
     * `completeTask`: mark the first task with that title, then fire the
     * progression rule for its group (group 0 when the title is unknown).
     */
    method CompleteTask(title: string)
      modifies this
      ensures tasks == AfterComplete(old(tasks), title)
      ensures |old(tasks)| <= |tasks| <= |old(tasks)| + 1
      ensures tasks[..|old(tasks)|] == Marked(old(tasks), title)
      ensures IdsIncreasing(old(tasks)) ==> IdsIncreasing(tasks)
    {
      ghost var before := tasks;
      var found := FindTitle(tasks, title);
      if found.Some? {
        var i := found.value;
        tasks := tasks[i := tasks[i].(completed := true)];
      }
      var activeGroup := if found.Some? then tasks[found.value].group else 0;
      var allTasksCompleted := GroupCompleted(tasks, activeGroup);
      if allTasksCompleted {
        GenerateTasksForGroup(activeGroup + 1);
      }
      CompleteKeepsMarkedPrefix(before, title);
      if IdsIncreasing(before) {
        CompletePreservesIds(before, title);
      }
    }

    /** `generateTasksForGroup`: create one task per section, sections 1 to SectionsPerGroup. */
    method GenerateTasksForGroup(group: int)
      modifies this
      ensures tasks == Generated(old(tasks), group, SectionsPerGroup)
      ensures tasks == old(tasks) + [NextGroupTask(old(tasks), group)]
      ensures IdsIncreasing(old(tasks)) ==> IdsIncreasing(tasks)
    {
      for section := 1 to SectionsPerGroup + 1
        invariant tasks == Generated(old(tasks), group, section - 1)
      {
        CreateTask(GeneratedTitle(group, section), GeneratedDescription(group, section),
                   "User", group, section);
      }
      GenerateAppendsOne(old(tasks), group);
      CreateAppends(old(tasks), GeneratedTitle(group, 1), GeneratedDescription(group, 1), "User", group, 1);
    }

    /** `createTask`: append an active task whose id is the last task's id plus one. */
    method CreateTask(title: string, description: string, persona: string, group: int, section: int)
      modifies this
      ensures tasks == AfterCreate(old(tasks), title, description, persona, group, section)
      ensures tasks == old(tasks) + [Task(NextId(old(tasks)), title, description, persona, group, section, false)]
      ensures IdsIncreasing(old(tasks)) ==> IdsIncreasing(tasks)
    {
      var id := if |tasks| > 0 then tasks[|tasks| - 1].id + 1 else 1;
      var newTask := Task(id, title, description, persona, group, section, false);
      CreateAppends(tasks, title, description, persona, group, section);
      tasks := tasks + [newTask];
    }

    /** `updateTask`: merge `patch` into the first task with that id, if there is one. */
    method UpdateTask(id: int, patch: TaskPatch)
      modifies this
      ensures tasks == AfterUpdate(old(tasks), id, patch)
      ensures |tasks| == |old(tasks)|
      ensures forall j :: 0 <= j < |tasks| ==> tasks[j].id == old(tasks)[j].id
      ensures (forall t :: t in old(tasks) ==> t.id != id) ==> tasks == old(tasks)
      ensures IdsIncreasing(old(tasks)) ==> IdsIncreasing(tasks)
    {
      UpdateEffect(tasks, id, patch);
      if IdsIncreasing(tasks) {
        UpdatePreservesIds(tasks, id, patch);
      }
      var taskIndex := FindId(tasks, id);
      if taskIndex.Some? {
        var i := taskIndex.value;
        tasks := tasks[i := Merge(tasks[i], patch)];
      }
    }

    /** `deleteTask`: keep only the tasks whose id differs. */
    method DeleteTask(id: int)
      modifies this
      ensures tasks == AfterDelete(old(tasks), id)
      ensures forall t :: t in tasks <==> t in old(tasks) && t.id != id
      ensures SubsequenceOf(tasks, old(tasks))
      ensures (forall t :: t in old(tasks) ==> t.id != id) ==> tasks == old(tasks)
      ensures IdsIncreasing(old(tasks)) ==> IdsIncreasing(tasks)
    {
      DeleteEffect(tasks, id);
      tasks := AfterDelete(tasks, id);
    }
  }
}
