/** The task record and the partial record that an update merges into it. */
module TaskModel {
  import opened Wrappers

  /** One task of the store: every field of the source's Task class. */
  datatype Task = Task(
    id: int,
    title: string,
    description: string,
    persona: string,
    group: int,
    section: int,
    completed: bool)

  /**
   * The fields an update may carry: every field of a task except its id.
   * A field that is `None` is absent from the update.
   */
  datatype TaskPatch = TaskPatch(
    title: Option<string>,
    description: Option<string>,
    persona: Option<string>,
    group: Option<int>,
    section: Option<int>,
    completed: Option<bool>)

  const NoChanges := TaskPatch(None, None, None, None, None, None)

  /** An update that sets only the title. */
  function TitleOnly(title: string): TaskPatch {
    NoChanges.(title := Some(title))
  }

  /** The spread `{ ...t, ...p }`: the fields present in `p` override those of `t`. */
  function Merge(t: Task, p: TaskPatch): (r: Task)
    ensures r.id == t.id
    ensures p.title.Some? ==> r.title == p.title.value
    ensures p.title.None? ==> r.title == t.title
    ensures p.description.Some? ==> r.description == p.description.value
    ensures p.description.None? ==> r.description == t.description
    ensures p.persona.Some? ==> r.persona == p.persona.value
    ensures p.persona.None? ==> r.persona == t.persona
    ensures p.group.Some? ==> r.group == p.group.value
    ensures p.group.None? ==> r.group == t.group
    ensures p.section.Some? ==> r.section == p.section.value
    ensures p.section.None? ==> r.section == t.section
    ensures p.completed.Some? ==> r.completed == p.completed.value
    ensures p.completed.None? ==> r.completed == t.completed
  {
    Task(
      t.id,
      p.title.GetOr(t.title),
      p.description.GetOr(t.description),
      p.persona.GetOr(t.persona),
      p.group.GetOr(t.group),
      p.section.GetOr(t.section),
      p.completed.GetOr(t.completed))
  }

  /** An update with no fields changes nothing. */
  lemma MergeNoChanges(t: Task)
    ensures Merge(t, NoChanges) == t
  {
  }

  /** Updating only the title leaves every other field as it was. */
  lemma MergeTitleOnly(t: Task, title: string)
    ensures Merge(t, TitleOnly(title)) == t.(title := title)
  {
  }

  /** Applying the same update twice is the same as applying it once. */
  lemma MergeIdempotent(t: Task, p: TaskPatch)
    ensures Merge(Merge(t, p), p) == Merge(t, p)
  {
  }
}
