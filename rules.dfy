/**
 * The task store's operations as functions from the store before to the
 * store after, and the properties those operations keep. The class in
 * module TaskManager performs the same steps on its field and is proved equal
 * to these functions.
 */
module TaskRules {
  import opened Wrappers
  import opened Decimal
  import opened TaskModel

  // ---------------------------------------------------------------------
  // Order, searching and filtering

  /** `a` is `b` with some tasks left out and the rest in their original order. */
  ghost predicate SubsequenceOf(a: seq<Task>, b: seq<Task>)
    decreases |b|
  {
    if a == [] then true
    else if b == [] then false
    else if a[0] == b[0] then SubsequenceOf(a[1..], b[1..])
    else SubsequenceOf(a, b[1..])
  }

  lemma {:induction false} SubsequenceMembers(a: seq<Task>, b: seq<Task>)
    requires SubsequenceOf(a, b)
    ensures forall t :: t in a ==> t in b
    decreases |b|
  {
    if a != [] && b != [] {
      if a[0] == b[0] {
        SubsequenceMembers(a[1..], b[1..]);
        forall t | t in a ensures t in b {
          if t != a[0] { assert t in a[1..]; }
        }
      } else {
        SubsequenceMembers(a, b[1..]);
      }
    }
  }

  /** `Array.prototype.filter`: the tasks that satisfy `p`, in store order. */
  function Filter(s: seq<Task>, p: Task -> bool): (r: seq<Task>)
    ensures forall t :: t in r <==> t in s && p(t)
    ensures |r| <= |s|
    ensures SubsequenceOf(r, s)
    ensures (forall i :: 0 <= i < |s| ==> p(s[i])) ==> r == s
    decreases |s|
  {
    if s == [] then []
    else if p(s[0]) then [s[0]] + Filter(s[1..], p)
    else Filter(s[1..], p)
  }

  /** Filtering by a predicate and by its negation splits the store in two. */
  lemma {:induction false} FilterSplit(s: seq<Task>, p: Task -> bool, q: Task -> bool)
    requires forall t :: q(t) <==> !p(t)
    ensures |Filter(s, p)| + |Filter(s, q)| == |s|
    ensures multiset(Filter(s, p)) + multiset(Filter(s, q)) == multiset(s)
    decreases |s|
  {
    if s != [] {
      FilterSplit(s[1..], p, q);
      assert s == [s[0]] + s[1..];
    }
  }

  // ---------------------------------------------------------------------
  // Reading the store

  function ActiveOf(s: seq<Task>): seq<Task> {
    Filter(s, (t: Task) => !t.completed)
  }

  function CompletedOf(s: seq<Task>): seq<Task> {
    Filter(s, (t: Task) => t.completed)
  }

  /**
   * The active and completed views partition the store: each task is in
   * exactly one of them, both keep store order, and together they hold
   * every task as many times as the store does.
   */
  lemma ActiveCompletedPartition(s: seq<Task>)
    ensures forall t :: t in ActiveOf(s) <==> t in s && !t.completed
    ensures forall t :: t in CompletedOf(s) <==> t in s && t.completed
    ensures SubsequenceOf(ActiveOf(s), s) && SubsequenceOf(CompletedOf(s), s)
    ensures |ActiveOf(s)| + |CompletedOf(s)| == |s|
    ensures multiset(ActiveOf(s)) + multiset(CompletedOf(s)) == multiset(s)
  {
    FilterSplit(s, (t: Task) => !t.completed, (t: Task) => t.completed);
  }

  // ---------------------------------------------------------------------
  // Ids

  /** Ids strictly increase in store order. */
  predicate IdsIncreasing(s: seq<Task>) {
    forall i, j :: 0 <= i < j < |s| ==> s[i].id < s[j].id
  }

  lemma IdsIncreasingUnique(s: seq<Task>)
    requires IdsIncreasing(s)
    ensures forall i, j :: 0 <= i < |s| && 0 <= j < |s| && s[i].id == s[j].id ==> i == j
  {
  }

  lemma {:induction false} SubsequenceKeepsIdsIncreasing(a: seq<Task>, b: seq<Task>)
    requires SubsequenceOf(a, b) && IdsIncreasing(b)
    ensures IdsIncreasing(a)
    decreases |b|
  {
    if a != [] && b != [] {
      if a[0] == b[0] {
        SubsequenceKeepsIdsIncreasing(a[1..], b[1..]);
        SubsequenceMembers(a[1..], b[1..]);
        forall i, j | 0 <= i < j < |a| ensures a[i].id < a[j].id {
          if i == 0 {
            assert a[j] in a[1..];
            var k :| 0 <= k < |b[1..]| && b[1..][k] == a[j];
            assert b[k + 1] == a[j];
          } else {
            assert a[i] == a[1..][i - 1] && a[j] == a[1..][j - 1];
          }
        }
      } else {
        SubsequenceKeepsIdsIncreasing(a, b[1..]);
      }
    }
  }

  /** The id `createTask` gives a new task: the last task's id plus one, or 1 in an empty store. */
  function NextId(s: seq<Task>): (r: int)
    ensures IdsIncreasing(s) ==> forall i :: 0 <= i < |s| ==> s[i].id < r
  {
    if |s| == 0 then 1 else s[|s| - 1].id + 1
  }

  /** While ids increase, the last id plus one is the largest id plus one. */
  lemma NextIdIsMaxPlusOne(s: seq<Task>)
    requires IdsIncreasing(s)
    ensures forall t :: t in s ==> t.id < NextId(s)
    ensures s != [] ==> exists t :: t in s && t.id == NextId(s) - 1
  {
    if s != [] {
      assert s[|s| - 1] in s;
    }
  }

  /** With ids out of order the last id plus one can be an id the store already holds. */
  lemma NextIdMayCollide()
    ensures var s := [Task(2, "B", "", "User", 1, 1, false), Task(1, "A", "", "User", 1, 1, false)];
      NextId(s) == s[0].id
  {
  }

  // ---------------------------------------------------------------------
  // Creating and resetting

  function AfterCreate(s: seq<Task>, title: string, description: string, persona: string,
                       group: int, section: int): (r: seq<Task>)
    ensures |r| == |s| + 1
    ensures r[|s|].id == NextId(s) && !r[|s|].completed
  {
    s + [Task(NextId(s), title, description, persona, group, section, false)]
  }

  /**
   * Creation appends exactly one active task with the given fields and an
   * id no earlier task has, and keeps ids increasing.
   */
  lemma CreateAppends(s: seq<Task>, title: string, description: string, persona: string,
                      group: int, section: int)
    ensures var r := AfterCreate(s, title, description, persona, group, section);
      |r| == |s| + 1 && r[..|s|] == s &&
      r[|s|] == Task(NextId(s), title, description, persona, group, section, false)
    ensures IdsIncreasing(s) ==>
      var r := AfterCreate(s, title, description, persona, group, section);
      IdsIncreasing(r) && forall t :: t in s ==> t.id != r[|s|].id
  {
  }

  const FirstTask := Task(1, "First Task", "This is the first task.", "User", 1, 1, false)

  /** The store after a reset to `seed`, with the bootstrap task when the seed is empty. */
  function AfterInitialize(seed: seq<Task>): (r: seq<Task>)
    ensures seed != [] ==> r == seed
    ensures seed == [] ==> r == [FirstTask]
  {
    if |seed| == 0 then AfterCreate(seed, "First Task", "This is the first task.", "User", 1, 1)
    else seed
  }

  // ---------------------------------------------------------------------
  // Updating and deleting

  /** `findIndex(task => task.id === id)`: the index of the first task with that id, if any. */
  function FindId(s: seq<Task>, id: int): (r: Option<nat>)
    ensures r.Some? ==> r.value < |s| && s[r.value].id == id
    ensures r.Some? ==> forall j :: 0 <= j < r.value ==> s[j].id != id
    ensures r.None? <==> forall j :: 0 <= j < |s| ==> s[j].id != id
    decreases |s|
  {
    if s == [] then None
    else if s[0].id == id then Some(0)
    else match FindId(s[1..], id)
      case None => None
      case Some(k) => Some(k + 1)
  }

  function AfterUpdate(s: seq<Task>, id: int, p: TaskPatch): (r: seq<Task>)
    ensures |r| == |s|
    ensures forall j :: 0 <= j < |s| ==> r[j].id == s[j].id
  {
    match FindId(s, id)
    case None => s
    case Some(i) => s[i := Merge(s[i], p)]
  }

  /**
   * An update merges `p` into the first task with that id and into no other,
   * keeps every id, position and the length, and does nothing when the id is absent.
   */
  lemma UpdateEffect(s: seq<Task>, id: int, p: TaskPatch)
    ensures |AfterUpdate(s, id, p)| == |s|
    ensures forall j :: 0 <= j < |s| ==> AfterUpdate(s, id, p)[j].id == s[j].id
    ensures (forall t :: t in s ==> t.id != id) ==> AfterUpdate(s, id, p) == s
    ensures forall i :: 0 <= i < |s| && s[i].id == id && (forall j :: 0 <= j < i ==> s[j].id != id) ==>
      AfterUpdate(s, id, p) == s[i := Merge(s[i], p)]
  {
  }

  lemma UpdatePreservesIds(s: seq<Task>, id: int, p: TaskPatch)
    requires IdsIncreasing(s)
    ensures IdsIncreasing(AfterUpdate(s, id, p))
  {
  }

  function AfterDelete(s: seq<Task>, id: int): (r: seq<Task>)
    ensures forall t :: t in r <==> t in s && t.id != id
    ensures SubsequenceOf(r, s)
  {
    Filter(s, (t: Task) => t.id != id)
  }

  /**
   * Deletion removes every task with that id, keeps the rest in order, and
   * does nothing when the id is absent.
   */
  lemma DeleteEffect(s: seq<Task>, id: int)
    ensures forall t :: t in AfterDelete(s, id) <==> t in s && t.id != id
    ensures SubsequenceOf(AfterDelete(s, id), s)
    ensures (forall t :: t in s ==> t.id != id) ==> AfterDelete(s, id) == s
    ensures IdsIncreasing(s) ==> IdsIncreasing(AfterDelete(s, id))
    ensures multiset(AfterDelete(s, id)) + multiset(Filter(s, (t: Task) => t.id == id)) == multiset(s)
  {
    FilterSplit(s, (t: Task) => t.id != id, (t: Task) => t.id == id);
    if IdsIncreasing(s) {
      SubsequenceKeepsIdsIncreasing(AfterDelete(s, id), s);
    }
  }

  /** No two tasks of the store share an id, whatever their order. */
  predicate IdsDistinct(s: seq<Task>) {
    forall i, j :: 0 <= i < j < |s| ==> s[i].id != s[j].id
  }

  /** While ids are unique, in any order, deleting a present id removes exactly one task. */
  lemma {:induction false} DeleteRemovesOne(s: seq<Task>, id: int)
    requires IdsDistinct(s)
    requires exists t :: t in s && t.id == id
    ensures |AfterDelete(s, id)| == |s| - 1
    decreases |s|
  {
    var rest := s[1..];
    assert IdsDistinct(rest) by {
      forall i, j | 0 <= i < j < |rest| ensures rest[i].id != rest[j].id {
        assert rest[i] == s[i + 1] && rest[j] == s[j + 1];
      }
    }
    if s[0].id == id {
      forall i | 0 <= i < |rest| ensures rest[i].id != id {
        assert rest[i] == s[i + 1];
      }
      assert AfterDelete(s, id) == Filter(rest, (t: Task) => t.id != id);
    } else {
      var t :| t in s && t.id == id;
      assert t in rest;
      DeleteRemovesOne(rest, id);
      assert AfterDelete(s, id) == [s[0]] + Filter(rest, (t: Task) => t.id != id);
      assert AfterDelete(rest, id) == Filter(rest, (t: Task) => t.id != id);
    }
  }

  // ---------------------------------------------------------------------
  // Completing and the progression rule

  /** `find(task => task.title === title)`, as the index of the task found, if any. */
  function FindTitle(s: seq<Task>, title: string): (r: Option<nat>)
    ensures r.Some? ==> FirstWithTitle(s, title, r.value)
    ensures r.None? <==> forall j :: 0 <= j < |s| ==> s[j].title != title
    decreases |s|
  {
    if s == [] then None
    else if s[0].title == title then Some(0)
    else match FindTitle(s[1..], title)
      case None => None
      case Some(k) => Some(k + 1)
  }

  /** Task `i` is the first task with that title, the one `tasks.find` returns. */
  predicate FirstWithTitle(s: seq<Task>, title: string, i: int) {
    0 <= i < |s| && s[i].title == title && forall j :: 0 <= j < i ==> s[j].title != title
  }

  /** The store after `completeTask` has marked the first task with that title. */
  function Marked(s: seq<Task>, title: string): (r: seq<Task>)
    ensures |r| == |s|
    ensures (forall j :: 0 <= j < |s| ==> s[j].title != title) ==> r == s
  {
    match FindTitle(s, title)
    case None => s
    case Some(i) => s[i := s[i].(completed := true)]
  }

  /** `task?.group || 0`: the found task's group, or 0 when no task has that title. */
  function ActiveGroup(s: seq<Task>, title: string): (r: int)
    ensures (forall j :: 0 <= j < |s| ==> s[j].title != title) ==> r == 0
    ensures r == 0 || exists j :: 0 <= j < |s| && s[j].title == title && s[j].group == r
  {
    match FindTitle(s, title)
    case None => 0
    case Some(i) => s[i].group
  }

  /** `filter(group == g).every(completed)`: true when no task of group g is active. */
  function GroupCompleted(s: seq<Task>, g: int): (r: bool)
    ensures r <==> forall i :: 0 <= i < |s| && s[i].group == g ==> s[i].completed
    decreases |s|
  {
    s == [] || ((s[0].group != g || s[0].completed) && GroupCompleted(s[1..], g))
  }

  /** The number of sections `generateTasksForGroup` creates. */
  const SectionsPerGroup: nat := 1

  function GeneratedTitle(group: int, section: int): string {
    "Task " + IntToString(group) + "-" + IntToString(section)
  }

  function GeneratedDescription(group: int, section: int): string {
    "Task in group " + IntToString(group) + ", section " + IntToString(section) + "."
  }

  /** The store after the first `n` rounds of the loop of `generateTasksForGroup`. */
  function Generated(s: seq<Task>, group: int, n: nat): (r: seq<Task>)
    ensures |r| == |s| + n
  {
    if n == 0 then s
    else AfterCreate(Generated(s, group, n - 1), GeneratedTitle(group, n),
                     GeneratedDescription(group, n), "User", group, n)
  }

  /** The task the rule appends to store `s` for group `g`. */
  function NextGroupTask(s: seq<Task>, g: int): Task {
    Task(NextId(s), GeneratedTitle(g, 1), GeneratedDescription(g, 1), "User", g, 1, false)
  }

  /** The next group's task reads `Task {g}-1`, `Task in group {g}, section 1.`, persona `User`. */
  lemma NextGroupTaskText(s: seq<Task>, g: int)
    ensures NextGroupTask(s, g) ==
      Task(NextId(s), "Task " + IntToString(g) + "-1",
           "Task in group " + IntToString(g) + ", section 1.", "User", g, 1, false)
  {
  }

  /** Generated titles of different groups differ: `Task {g}-1` determines g. */
  lemma GeneratedTitleInjective(g1: int, g2: int)
    requires GeneratedTitle(g1, 1) == GeneratedTitle(g2, 1)
    ensures g1 == g2
  {
    var a, b := IntToString(g1), IntToString(g2);
    var t := GeneratedTitle(g1, 1);
    assert IntToString(1) == "1";
    assert t == "Task " + a + "-1" == "Task " + b + "-1";
    assert t[5..|t| - 2] == a;
    assert t[5..|t| - 2] == b;
    IntToStringInjective(g1, g2);
  }

  /** `generateTasksForGroup` appends exactly one task: section 1 of the group. */
  lemma GenerateAppendsOne(s: seq<Task>, group: int)
    ensures Generated(s, group, SectionsPerGroup) == s + [NextGroupTask(s, group)]
  {
  }

  function AfterComplete(s: seq<Task>, title: string): (r: seq<Task>)
    ensures |s| <= |r| <= |s| + 1
  {
    var m := Marked(s, title);
    var g := ActiveGroup(s, title);
    if GroupCompleted(m, g) then Generated(m, g + 1, SectionsPerGroup) else m
  }

  /**
   * Completing a task whose title is first found at `i` marks that task and
   * no other. Exactly when every other task of its group is already
   * completed, one task for the next group is appended; otherwise the
   * length is unchanged.
   */
  lemma CompleteFound(s: seq<Task>, title: string, i: nat)
    requires i < |s| && s[i].title == title
    requires forall j :: 0 <= j < i ==> s[j].title != title
    ensures Marked(s, title) == s[i := s[i].(completed := true)]
    ensures ActiveGroup(s, title) == s[i].group
    ensures var m := s[i := s[i].(completed := true)];
      AfterComplete(s, title) ==
        if forall j :: 0 <= j < |s| && j != i && s[j].group == s[i].group ==> s[j].completed
        then m + [NextGroupTask(s, s[i].group + 1)]
        else m
  {
    FoundMarks(s, title, i);
    if forall j :: 0 <= j < |s| && j != i && s[j].group == s[i].group ==> s[j].completed {
      FoundFires(s, title, i);
    } else {
      FoundQuiet(s, title, i);
    }
  }

  /** Marking the last incomplete task of its group fires the rule. */
  lemma FoundFires(s: seq<Task>, title: string, i: nat)
    requires i < |s| && s[i].title == title
    requires forall j :: 0 <= j < i ==> s[j].title != title
    requires forall j :: 0 <= j < |s| && j != i && s[j].group == s[i].group ==> s[j].completed
    ensures AfterComplete(s, title) == s[i := s[i].(completed := true)] + [NextGroupTask(s, s[i].group + 1)]
  {
    FoundMarks(s, title, i);
    FoundRuleCondition(s, i);
    CompleteFires(s, title);
    MarkKeepsNextId(s, i);
  }

  /** While another task of the group is active, marking does not fire the rule. */
  lemma FoundQuiet(s: seq<Task>, title: string, i: nat)
    requires i < |s| && s[i].title == title
    requires forall j :: 0 <= j < i ==> s[j].title != title
    requires exists j :: 0 <= j < |s| && j != i && s[j].group == s[i].group && !s[j].completed
    ensures AfterComplete(s, title) == s[i := s[i].(completed := true)]
  {
  }

  /** Setting a completed flag leaves the next id unchanged. */
  lemma MarkKeepsNextId(s: seq<Task>, i: nat)
    requires i < |s|
    ensures NextId(s[i := s[i].(completed := true)]) == NextId(s)
  {
  }

  /** When task `i` is the first with that title, completion marks it and uses its group. */
  lemma FoundMarks(s: seq<Task>, title: string, i: nat)
    requires i < |s| && s[i].title == title
    requires forall j :: 0 <= j < i ==> s[j].title != title
    ensures Marked(s, title) == s[i := s[i].(completed := true)]
    ensures ActiveGroup(s, title) == s[i].group
  {
  }

  /** After marking task `i`, its group is complete exactly when every other task of it already was. */
  lemma FoundRuleCondition(s: seq<Task>, i: nat)
    requires i < |s|
    ensures GroupCompleted(s[i := s[i].(completed := true)], s[i].group) <==>
      forall j :: 0 <= j < |s| && j != i && s[j].group == s[i].group ==> s[j].completed
  {
    var m := s[i := s[i].(completed := true)];
    if !(forall j :: 0 <= j < |s| && j != i && s[j].group == s[i].group ==> s[j].completed) {
      var j :| 0 <= j < |s| && j != i && s[j].group == s[i].group && !s[j].completed;
      assert m[j] == s[j];
    }
  }

  /**
   * An unknown title marks nothing and the rule is evaluated for group 0:
   * a task `Task 1-1` is appended unless some task of group 0 is active.
   */
  lemma CompleteUnknown(s: seq<Task>, title: string)
    requires forall j :: 0 <= j < |s| ==> s[j].title != title
    ensures AfterComplete(s, title) ==
      if forall j :: 0 <= j < |s| && s[j].group == 0 ==> s[j].completed
      then s + [NextGroupTask(s, 1)]
      else s
  {
    GenerateAppendsOne(s, 1);
  }

  /** Completion changes no id and appends at most one task, so ids keep increasing. */
  lemma CompletePreservesIds(s: seq<Task>, title: string)
    requires IdsIncreasing(s)
    ensures IdsIncreasing(AfterComplete(s, title))
  {
    var m := Marked(s, title);
    assert |m| == |s| && forall j :: 0 <= j < |s| ==> m[j].id == s[j].id;
    assert IdsIncreasing(m);
    GenerateAppendsOne(m, ActiveGroup(s, title) + 1);
    CreateAppends(m, GeneratedTitle(ActiveGroup(s, title) + 1, 1),
                  GeneratedDescription(ActiveGroup(s, title) + 1, 1), "User",
                  ActiveGroup(s, title) + 1, 1);
  }

  /**
   * Completion keeps the marked store as a prefix, and appends a task
   * exactly when the active group has no active task left after marking.
   */
  lemma CompleteKeepsMarkedPrefix(s: seq<Task>, title: string)
    ensures AfterComplete(s, title)[..|s|] == Marked(s, title)
    ensures |AfterComplete(s, title)| == |s| + 1 <==> GroupCompleted(Marked(s, title), ActiveGroup(s, title))
  {
    if GroupCompleted(Marked(s, title), ActiveGroup(s, title)) {
      CompleteFires(s, title);
    }
  }

  /** When the rule fires, the store is the marked store plus one task for the next group. */
  lemma CompleteFires(s: seq<Task>, title: string)
    requires GroupCompleted(Marked(s, title), ActiveGroup(s, title))
    ensures AfterComplete(s, title) ==
      Marked(s, title) + [NextGroupTask(Marked(s, title), ActiveGroup(s, title) + 1)]
  {
    GenerateAppendsOne(Marked(s, title), ActiveGroup(s, title) + 1);
  }

  /**
   * After a completion of a present title has fired the rule, that title is
   * still first found at the same, now completed, task, and its group has
   * no active task.
   */
  lemma FiredStoreFacts(s: seq<Task>, title: string)
    requires FindTitle(s, title).Some?
    requires |AfterComplete(s, title)| == |s| + 1
    ensures var r := AfterComplete(s, title);
      Marked(r, title) == r && ActiveGroup(r, title) == ActiveGroup(s, title) &&
      GroupCompleted(r, ActiveGroup(s, title))
    ensures FindTitle(AfterComplete(s, title), title) == FindTitle(s, title)
  {
    var i := FindTitle(s, title).value;
    var m := s[i := s[i].(completed := true)];
    var g := s[i].group;
    var x := NextGroupTask(m, g + 1);
    FiredShape(s, title);
    MarkKeepsFirst(s, title, i);
    AppendKeepsFirst(m, x, title, i);
    AppendOtherGroup(m, x, g);
    MarkedIdle(m + [x], title, i);
    assert FindTitle(m + [x], title) == Some(i);
  }

  /** Marking task `i` keeps it the first task with its title. */
  lemma MarkKeepsFirst(s: seq<Task>, title: string, i: nat)
    requires FirstWithTitle(s, title, i)
    ensures FirstWithTitle(s[i := s[i].(completed := true)], title, i)
  {
  }

  /** Appending a task keeps the first task with a title where it was. */
  lemma AppendKeepsFirst(s: seq<Task>, x: Task, title: string, i: nat)
    requires FirstWithTitle(s, title, i)
    ensures FirstWithTitle(s + [x], title, i)
  {
  }

  /** Appending a task of another group keeps a complete group complete. */
  lemma AppendOtherGroup(s: seq<Task>, x: Task, g: int)
    requires GroupCompleted(s, g) && x.group != g
    ensures GroupCompleted(s + [x], g)
  {
  }

  /** A completion that fired the rule marked the first task with the title and appended one task. */
  lemma FiredShape(s: seq<Task>, title: string)
    requires FindTitle(s, title).Some?
    requires |AfterComplete(s, title)| == |s| + 1
    ensures var i := FindTitle(s, title).value;
      var m := s[i := s[i].(completed := true)];
      ActiveGroup(s, title) == s[i].group && GroupCompleted(m, s[i].group) &&
      AfterComplete(s, title) == m + [NextGroupTask(m, s[i].group + 1)]
  {
    var i := FindTitle(s, title).value;
    var m := s[i := s[i].(completed := true)];
    FoundMarks(s, title, i);
    assert Marked(s, title) == m;
    assert ActiveGroup(s, title) == s[i].group;
    assert !GroupCompleted(m, s[i].group) ==> AfterComplete(s, title) == m;
    CompleteFires(s, title);
  }

  /** Completing a title whose first task is already completed marks nothing new. */
  lemma MarkedIdle(r: seq<Task>, title: string, i: nat)
    requires FirstWithTitle(r, title, i) && r[i].completed
    ensures Marked(r, title) == r && ActiveGroup(r, title) == r[i].group
  {
  }

  /**
   * Completing an already completed task fires the rule again: once a
   * completion has appended a next-group task, completing the same title
   * once more appends a second task for the same group.
   */
  lemma RecompletionAppendsAgain(s: seq<Task>, title: string, r: seq<Task>)
    requires FindTitle(s, title).Some?
    requires r == AfterComplete(s, title) && |r| == |s| + 1
    ensures AfterComplete(r, title) == r + [NextGroupTask(r, ActiveGroup(s, title) + 1)]
  {
    FiredStoreFacts(s, title);
    CompleteIdle(r, title, ActiveGroup(s, title));
  }

  /** Completing a title whose task is already marked, in a complete group, only appends. */
  lemma CompleteIdle(r: seq<Task>, title: string, g: int)
    requires Marked(r, title) == r && ActiveGroup(r, title) == g && GroupCompleted(r, g)
    ensures AfterComplete(r, title) == r + [NextGroupTask(r, g + 1)]
  {
    CompleteFires(r, title);
  }

  // ---------------------------------------------------------------------
  // Worked scenarios

  /** Completing the only task of group 1 completes it and unlocks `Task 2-1`. */
  lemma ScenarioInitialSetup()
    ensures var s := [Task(1, "Initial Setup", "", "User", 1, 1, false)];
      var r := AfterComplete(s, "Initial Setup");
      r == [s[0].(completed := true), Task(2, "Task 2-1", "Task in group 2, section 1.", "User", 2, 1, false)] &&
      CompletedOf(r) == [s[0].(completed := true)]
  {
    var s := [Task(1, "Initial Setup", "", "User", 1, 1, false)];
    var m := [s[0].(completed := true)];
    assert FindTitle(s, "Initial Setup") == Some(0);
    assert Marked(s, "Initial Setup") == m;
    assert ActiveGroup(s, "Initial Setup") == 1;
    CompleteFires(s, "Initial Setup");
    assert IntToString(2) == "2";
    var n := Task(2, "Task 2-1", "Task in group 2, section 1.", "User", 2, 1, false);
    NextGroupTaskText(m, 2);
    assert NextGroupTask(m, 2) == n;
    var r := m + [n];
    assert CompletedOf(r) == [m[0]] + CompletedOf([n]);
    assert CompletedOf([n]) == [] + CompletedOf([]);
  }

  /** Two creations in an empty store receive ids 1 and 2. */
  lemma ScenarioCreateTwice()
    ensures var r := AfterCreate(AfterCreate([], "T", "D", "P", 1, 1), "T", "D", "P", 1, 1);
      |r| == 2 && r[0].id == 1 && r[1].id == 2
  {
  }
}
