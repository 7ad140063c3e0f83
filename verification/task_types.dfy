/** The record types of the task list (src/types/task.ts). */
module TaskTypes {

  /** The three priority levels a task may carry. */
  datatype Priority = Low | Medium | High

  datatype Option<+T> = None | Some(value: T)

  /**
   * One to-do item. The declared type makes `priority` required, but the
   * object the page builds when a task is added has no priority at all, so a
   * stored task may lack one: it is modelled as optional, with no default.
   */
  datatype Task = Task(id: string, title: string, completed: bool, priority: Option<Priority>)
}
