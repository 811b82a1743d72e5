/** Value types of the to-do list: priorities, tasks, sections, persisted
    records and the draft held by the add-task form. */
module Tasks {

  datatype Option<T> = None | Some(value: T)

  /** The three priorities offered by the priority drop-down. */
  datatype Priority = Low | Medium | High

  /** Sort rank of a priority: High 3, Medium 2, Low 1. */
  function Rank(p: Priority): (r: int)
    ensures 1 <= r <= 3
  {
    match p
    case High => 3
    case Medium => 2
    case Low => 1
  }

  /** A rendered task. `id` stands for the identity of its element. */
  datatype Task = Task(id: nat, text: string, priority: Priority, completed: bool)

  /** A section: its name (the `data-section` attribute) and its tasks in
      document order. */
  datatype Section = Section(name: string, tasks: seq<Task>)

  /** One entry of the persisted array. */
  datatype Record = Record(section: string, text: string, priority: Priority, completed: bool)

  /** The record saved for task `t` of section `name`. */
  function ToRecord(name: string, t: Task): Record
  {
    Record(name, t.text, t.priority, t.completed)
  }

  /** The form draft: the input's text, `selectedPriority` and
      `selectedSection` (None stands for `null`). */
  datatype Draft = Draft(text: string, priority: Option<Priority>, section: Option<string>)

  /** The draft after the form is reset. */
  const EmptyDraft := Draft([], None, None)

  /** The fields are all truthy in the JavaScript sense: the empty string
      and `null` are falsy. This is both the save button's enabling
      condition and the guard of addTask. */
  predicate SaveEnabled(d: Draft)
  {
    d.text != [] && d.priority.Some? && d.section.Some? && d.section.value != []
  }
}
