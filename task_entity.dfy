/** The `tasks` table's row type. */
module TaskEntity {
  import opened Wrappers

  /**
   * One to-do item. `id` is the auto-generated primary key: 0 means "not
   * assigned yet", and the store picks a fresh key when such a task is
   * inserted. `text` has no default, so every task carries one. The
   * timestamp (milliseconds) is optional and absent by default.
   */
  datatype Task = Task(
    id: int := 0,
    text: string,
    isDone: bool := false,
    completedOrReopenedTimestamp: Option<int> := None)

  /** True when the store is to generate the key of `t` on insert. */
  predicate NeedsGeneratedId(t: Task) {
    t.id == 0
  }

  /** A task built with every defaulted field left at its default. */
  function NewTask(text: string): (t: Task)
    ensures t.text == text
    ensures NeedsGeneratedId(t)
    ensures !t.isDone && t.completedOrReopenedTimestamp == None
  {
    Task(text := text)
  }
}
