# To-do list task store, modelled in Dafny

The to-do list page keeps tasks in named sections: Home, Work and so on.
Every task has a text, a priority (High, Medium or Low) and a completed
checkbox. Inside a section, tasks are kept in priority order, highest
first. A new task goes before the first task of strictly lower priority,
so tasks of equal priority stay in the order they were added. A section is
created, after the existing ones, when its first task is added. It
disappears when its last task is deleted. After every change, the page
flattens all tasks into one array of `{section, text, priority,
completed}` records and stores it under the `tasks` key of local storage.
At start-up it rebuilds the page by feeding each stored record through the
add-task form. A record whose completed flag is set then ticks the
`:last-child` task of its section.

The model has these modules:

- `Tasks`: the values of the page.
  - `Priority` and its sort rank (High 3, Medium 2, Low 1).
  - `Task`, `Section` and the persisted `Record`.
  - The form draft (`Draft`) and the save button's enabling condition
    (`SaveEnabled`).
- `Insertion`: `insertTaskSorted`.
  - `Insert` is the specification: the task goes at `InsertPos`, the first
    task of strictly lower rank.
  - `InsertTaskSorted` is the script's scan with its `inserted` flag, proved
    equal to `Insert`.
- `Persistence`: `saveTasksToLocalStorage`.
  - `Snapshot` flattens the sections in order, then the tasks in order.
  - `SaveRecords` is the script's nested loop, proved equal to `Snapshot`.
- `Store`: the sections as a value, with the operations and invariants.
  - Operations:
    - lookup and creation of a section (`getSectionContainer`);
    - adding a task (`AddToStore`);
    - finding a task (`Locate`);
    - deleting it (`DeleteAt`);
    - flipping its checkbox (`Toggle`).
  - Store invariant `Inv`:
    - every section has a name, at least one task and is sorted;
    - section names are unique;
    - no task text is empty;
    - task ids are unique.
- `Saving`: what is saved after a delete or a toggle, compared with what
  was saved before.
- `Loading`: `addTask` and `loadTasksFromLocalStorage` on the whole page as
  a value `Page`.
  - `Page` holds the sections, the stored records, the draft, the save
    button's flag and the next id.
  - `AddStep` is one `addTask`.
  - `LoadStep` is one iteration of the load.
  - `Replay` is the whole load.
  - The save/load round trip is proved here.
- `TodoPage`: the script itself.
  - The class `TodoList` holds the page's mutable state.
  - Each handler of the script is a method: the form inputs, `addTask`,
    the delete button, the checkbox and the load.
  - Each method is proved against the functions above.
- `Scenarios`: the worked example on concrete tasks: three adds, a toggle,
  three deletes.

The DOM has no task identity the model can see. In the model, every task
carries an `id`, handed out from a counter when the task is created. The
delete and checkbox handlers, which in the script are closures over their
own task element, take that id.

What the load does, as the script is written:

- Each record is put into the form and added with `addTask`, which saves.
- If the record is completed, the last task of its section is then
  ticked, without saving again.
- When the stored records are a snapshot of a well-formed page, every task
  is appended at the end of its section. The `:last-child` task is
  therefore the task just added, and the page is rebuilt exactly, up to
  ids.
- The persisted slot afterwards is the snapshot with the last record's
  completed flag cleared: no save follows the last tick.
- If a completed record names a section that has no task, the script
  dereferences `null` and stops. The model reports this as a step that
  fails, and the form is then not reset.
- The load does not set the flag on the task a completed record
  describes. It ticks whatever task is `:last-child` of the named section,
  and it does not save afterwards. The model does the same.

## Model

| member | source | states |
|---|---|---|
| Tasks.Rank | script.js:164 | every priority has a rank between 1 and 3 |
| Tasks.ToRecord | script.js:18-23 | the record saved for a task: its section's name, its text, its priority and its completed flag |
| Tasks.SaveEnabled | script.js:133 | the form is complete when the text is non-empty and a priority and a non-empty section are selected; the save button is enabled and addTask proceeds exactly then |
| Insertion.InsertPos | script.js:168-174 | the index is at most the section's length, every task before it ranks at least as high as the new task, and the task at it, if any, ranks strictly lower |
| Insertion.InsertPosUnique | script.js:170 | only one index has that first-strictly-lower property |
| Insertion.Insert | script.js:163-179 | insertion adds exactly one task: the result is one longer and holds the old tasks plus the new one, as a multiset |
| Insertion.InsertShape | script.js:170-178 | the new task sits at the insertion index; tasks before it keep their place and tasks after it move one place along |
| Insertion.InsertStable | script.js:163-179 | removing the new task from the result gives back the old section in its old order |
| Insertion.InsertAfterNotLower | script.js:170 | in a sorted section, the new task lands after every task of equal or higher rank and before every task of lower rank, so ties keep insertion order |
| Insertion.InsertKeepsSorted | script.js:163-179 | insertion keeps a section sorted by non-increasing rank |
| Insertion.InsertAppendsLowest | script.js:176-178 | a task ranking no higher than every task present is appended at the end |
| Insertion.InsertTaskSorted | script.js:163-179 | the scan with the `inserted` flag returns exactly the specified insertion |
| Persistence.Records | script.js:17-24 | one record per task of a section, in task order, carrying the section name, text, priority and flag |
| Persistence.Snapshot | script.js:15-25 | the records of all sections, section by section in page order and, inside each, task by task in section order |
| Persistence.SnapshotAppend | script.js:15-25 | the snapshot of two runs of sections is the two snapshots joined |
| Persistence.SnapshotAround | script.js:15-25 | a section's records sit between those of the sections before it and those after it |
| Persistence.SaveRecords | script.js:12-28 | the nested loop over sections and tasks produces exactly the snapshot |
| Persistence.ClearLast | script.js:261-266 | the snapshot with only its last record's completed flag cleared |
| Store.ReplaceKeepsInv | script.js:231 | replacing a section by a good section with the same name and old or fresh ids keeps the store invariant |
| Store.AppendKeepsInv | script.js:141-156 | appending a new, uniquely named one-task section with a fresh id keeps the store invariant |
| Store.DropKeepsInv | script.js:202-204 | removing a section keeps the store invariant |
| Store.SectionIndex | script.js:139 | the lookup finds the first section with that name, and finds none exactly when no section has it |
| Store.Container | script.js:137-160 | getSectionContainer returns a section with the requested name: the existing one, or a new empty one appended after the others when the name is not on the page |
| Store.AddToStore | script.js:137-179 | the store after an add: the task inserted in order into the section with its name, or a new one-task section after the others when the name is not on the page |
| Store.AddViaContainer | script.js:185 | finding or creating the container and then inserting the task into it is adding the task to the store |
| Store.AddToStoreSections | script.js:137-160 | a new name adds exactly one section at the end; an existing name changes only its own section; names stay unique |
| Store.InsertIds | script.js:231 | inserting a task adds exactly its id to the section's ids |
| Store.InsertDistinct | script.js:231 | inserting a task with a fresh id keeps the section's ids distinct |
| Store.AddKeepsInv | script.js:182-243 | an accepted add keeps every store invariant |
| Store.FindTask | script.js:199-200 | finds the index of the task with an id, and finds none exactly when no task has it |
| Store.Locate | script.js:199-200 | finds the position of the task with an id, and finds none exactly when no task on the page has it |
| Store.LocateFindsTask | script.js:199-200 | with unique ids, a task's id leads back to that task |
| Store.RemoveAt | script.js:200 | removing an element keeps the others in order, shifted after it |
| Store.DeleteAt | script.js:199-204 | the store after a delete: the task removed from its section, and the section removed too when that was its last task |
| Store.RemoveAtKeeps | script.js:200 | removing a task keeps a section sorted and its ids distinct |
| Store.RemoveAtIds | script.js:200 | removing a task takes exactly its id out of the section's ids |
| Store.DeleteKeepsInv | script.js:199-208 | a delete keeps every store invariant |
| Store.DeleteRemovesTask | script.js:200 | after the delete, no task on the page has the deleted task's id |
| Store.SetCompleted | script.js:214-222 | the store with one task's completed flag set to a given value |
| Store.Toggle | script.js:214-222 | the store with one task's completed flag inverted |
| Store.SetCompletedKeepsInv | script.js:214-223 | setting a completed flag keeps every store invariant |
| Store.SetCompletedOnly | script.js:214-221 | only that task's flag changes: sections, order, other tasks and the task's text, priority and id stay |
| Store.ToggleTwice | script.js:214-221 | toggling the same checkbox twice restores the store |
| Saving.SnapshotReplace | script.js:15-25 | the snapshot after one section is replaced |
| Saving.SnapshotDrop | script.js:15-25 | the snapshot after one section is removed |
| Saving.DeleteSnapshotAround | script.js:199-208 | what is saved after a delete, section by section |
| Saving.DeleteSnapshot | script.js:199-208 | what the delete handler saves is the old snapshot without exactly the deleted task's record |
| Saving.ToggleSnapshotAround | script.js:214-223 | what is saved after a toggle, section by section |
| Saving.ToggleSnapshot | script.js:214-223 | what the checkbox handler saves is the old snapshot with exactly that task's completed flag flipped |
| Loading.AddStep | script.js:182-243 | addTask on the whole page: an incomplete form changes nothing; otherwise the task is added with the next id, the store is saved, the form is reset and the save button disabled |
| Loading.AddStepSpec | script.js:182-243 | a refused draft changes nothing; an accepted add keeps the invariants, saves exactly the new store with one more record, and leaves a reset form with the save button disabled |
| Loading.AddCount | script.js:231-232 | every accepted add puts exactly one more record in the snapshot |
| Loading.AddStepKeepsButton | script.js:182-243 | if the save button agrees with the form before addTask, it agrees after it |
| Loading.MarkLast | script.js:261-266 | the `:last-child` tick: the last task of the named section marked completed, or nothing when that section has no task |
| Loading.MarkLastKeepsInv | script.js:261-266 | ticking the last task of a section keeps the store invariant |
| Loading.LoadStep | script.js:255-266 | one record of the load: the record written into the form, addTask, then the tick of the section's last task when the record is completed; the step fails when there is no task to tick |
| Loading.Replay | script.js:253-267 | the load: the records replayed in order, stopping at the first failing step |
| Loading.ReplayPrefix | script.js:255-267 | a step of the load extends the replayed prefix, and a failing step is where the whole load ends |
| Loading.ReplayAppend | script.js:255-267 | loading two runs of records is loading the first, then the second if the first got through |
| Loading.LoadStepKeepsInv | script.js:255-267 | one load step keeps the store invariant, whatever the record holds |
| Loading.ReplayKeepsInv | script.js:253-271 | whatever the stored records hold, the load keeps the store invariant |
| Loading.LoadStepKeepsDisabled | script.js:255-266 | one load step leaves the save button disabled and a form that cannot enable it |
| Loading.ReplayKeepsButton | script.js:253-271 | starting from a disabled button that agrees with the form, the load, stopped early or not, leaves the button disabled and agreeing with the form, before and after the final form reset |
| Loading.AddOnto | script.js:176-178 | a task ranking no higher than every task of the last section goes at its end |
| Loading.MarkLastAtEnd | script.js:261-266 | the `:last-child` query on the last section ticks that section's last task |
| Loading.LoadStepAppends | script.js:256-266 | when the record's task is appended at the end of its section, the ticked `:last-child` task is the one just added; the save inside addTask holds its flag cleared |
| Loading.RebuildAdds | script.js:255-259 | while a section is rebuilt from sorted records, each new task is appended at its end |
| Loading.RebuiltSnoc | script.js:255-266 | one more record extends the rebuilt section by one task, with the record's flag |
| Loading.ReplaySectionStep | script.js:255-266 | one record of a sorted section rebuilds one more task of it |
| Loading.ReplaySection | script.js:253-267 | replaying a sorted section's records onto a page without that section rebuilds it after the other sections; the stored slot is everything but the last record's flag |
| Loading.SameUpToIdsSnapshot | script.js:12-28 | stores that agree up to ids save the same snapshot |
| Loading.RoundTripStep | script.js:253-271 | one more section in the round trip keeps the rebuilt page equal to the original up to ids |
| Loading.LoadRoundTrip | script.js:253-271 | loading the snapshot of a well-formed store into an empty page succeeds and rebuilds the same sections, tasks, order and flags up to ids, hence the same snapshot; the stored slot is the snapshot with the last flag cleared |
| TodoPage.TodoList.constructor | script.js:29-30 | the page starts with no sections, the stored records, an empty form and the given save-button state |
| TodoPage.TodoList.UpdateSaveBtnState | script.js:132-134 | the button is disabled exactly when the draft is not complete |
| TodoPage.TodoList.SelectPriority | script.js:120-128 | choosing a priority sets it in the form and updates the button |
| TodoPage.TodoList.SelectSection | script.js:70-79 | choosing a section sets it in the form and updates the button |
| TodoPage.TodoList.InputText | script.js:135 | typing sets the form text and updates the button |
| TodoPage.TodoList.SaveTasksToLocalStorage | script.js:12-28 | the stored slot becomes the snapshot of the page, and nothing else changes |
| TodoPage.TodoList.GetSectionContainer | script.js:137-160 | the page after the lookup and the container's index are the specified ones |
| TodoPage.TodoList.AddTask | script.js:182-243 | the page changes exactly as AddStep says, and the invariant is kept |
| TodoPage.TodoList.AddAccepted | script.js:185-240 | the accepted part of addTask: the page changes exactly as AddStep says |
| TodoPage.TodoList.PutTask | script.js:185 | the container lookup followed by insertTaskSorted adds the task to the store |
| TodoPage.TodoList.DeleteTask | script.js:199-208 | the task is removed, with its section when it was the last one, and the new page is saved; an unknown id changes nothing; the invariant is kept |
| TodoPage.TodoList.RemoveTaskElement | script.js:200-204 | the task element leaves the page, with its section when that empties it |
| TodoPage.TodoList.ToggleCompleted | script.js:214-223 | exactly that task's flag flips and the new page is saved; an unknown id changes nothing; the invariant is kept |
| TodoPage.TodoList.MarkLastTask | script.js:261-266 | the `:last-child` tick, and whether the queried task exists |
| TodoPage.TodoList.LoadRecord | script.js:255-267 | one iteration of the load changes the page as LoadStep says, and the invariant is kept |
| TodoPage.TodoList.LoadTasksFromLocalStorage | script.js:253-271 | the page ends as the replay of the stored records says, with the form cleared unless the load stopped early; the invariant is kept |
| Scenarios.AddCallBob | script.js:170-178 | a Low task added after a High one goes after it |
| Scenarios.InsertFixBug | script.js:170-174 | a Medium task goes between a High and a Low one |
| Scenarios.AddScenario | script.js:182-243 | adding Buy milk (High), Call Bob (Low) and Fix bug (Medium) to Home gives Buy milk, Fix bug, Call Bob |
| Scenarios.ToggleScenario | script.js:214-223 | ticking Fix bug changes only its flag |
| Scenarios.DeleteScenario | script.js:199-208 | deleting the three tasks one by one removes the Home section |

## Left out

- Rendering and styling are not modelled. This covers:
  - element creation and classes;
  - the strike-through and `soft-disabled` styling of completed tasks
    (script.js:215-221, 264-265);
  - the button captions (script.js:73, 123, 237, 239);
  - the drop-down toggles (script.js:66-68, 116-118).
- The search filter (script.js:34-61) is not modelled. It only hides and
  shows elements and does not change the task store.
- The "no tasks" message (`isTaskListEmpty`, script.js:83-96) is not
  modelled. It depends on element visibility, a layout property.
- Opening and closing the form (script.js:99-113, 248) is not modelled. It
  is presentation state only.
- Local storage and JSON are not modelled as such. The `tasks` slot is the
  field `saved`, holding the records already decoded. A missing key or an
  unparsable value, and `JSON.stringify`/`JSON.parse`, are not modelled.
- Event wiring is not modelled: the `DOMContentLoaded` listener, the save
  button's listener and `console.log` (script.js:245-249, 273-276). The
  handlers are methods the caller invokes.
- The attribute selector of `getSectionContainer` and of the load
  (script.js:139, 261) is modelled as comparing the name for equality. A
  section name containing a double quote would break the selector in the
  browser.
- Priorities are the three values of the drop-down. A stored record with
  another priority string is not modelled: `priorityOrder` would give
  `undefined` for it.
- Element identity is modelled by task ids handed out by the page. The
  delete and checkbox handlers take an id, and an id that names no task
  changes nothing. This cannot happen in the script: a removed task's
  button is gone with it.
- TodoPage.TodoList.constructor: the initial `disabled` state of the save
  button comes from index.html, which is not part of this model, so it is
  a parameter.
- The text of a task is not trimmed, as in the script. The priority read
  back from an element's `span` (script.js:169) is the task's stored
  priority.
