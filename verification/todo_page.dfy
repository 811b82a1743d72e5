/** The page script itself: its module-level state (the task sections on
    the page, the persisted `tasks` slot, the form draft, the save button)
    as the fields of one object, and its functions and event handlers as
    methods that change those fields in place. */
module TodoPage {
  import opened Tasks
  import opened Insertion
  import opened Persistence
  import opened Store
  import opened Loading

  class TodoList {
    /** The `.task-section` elements in document order. */
    var sections: seq<Section>
    /** The `tasks` slot of local storage, already decoded. */
    var saved: seq<Record>
    /** `inputTask.value`, `selectedPriority` and `selectedSection`. */
    var draft: Draft
    /** `saveBtn.disabled`. */
    var saveDisabled: bool
    /** The id the next created task receives. */
    var nextId: nat

    /** Sections are non-empty, uniquely named and sorted by priority, and
        task ids are unique. */
    ghost predicate Valid()
      reads this
    {
      Inv(sections, nextId)
    }

    /** The object's state as a value. */
    function State(): Page
      reads this
    {
      Page(sections, saved, draft, saveDisabled, nextId)
    }

    /** A page with no sections yet, whatever is in storage, and an empty
        form. */
    constructor (stored: seq<Record>, disabled: bool)
      ensures Valid()
      ensures State() == Page([], stored, EmptyDraft, disabled, 0)
    {
      sections := [];
      saved := stored;
      draft := EmptyDraft;
      saveDisabled := disabled;
      nextId := 0;
    }

    /** updateSaveBtnState: the button is disabled exactly when the text is
        empty or no priority or section is selected. */
    method UpdateSaveBtnState()
      modifies this`saveDisabled
      ensures saveDisabled == !SaveEnabled(draft)
    {
      saveDisabled := draft.text == [] || draft.priority.None? || draft.section.None? || draft.section.value == [];
    }

    /** A click on a priority option. */
    method SelectPriority(p: Priority)
      modifies this`draft, this`saveDisabled
      ensures draft == old(draft).(priority := Some(p))
      ensures saveDisabled == !SaveEnabled(draft)
    {
      draft := draft.(priority := Some(p));
      UpdateSaveBtnState();
    }

    /** A click on a section option. */
    method SelectSection(name: string)
      modifies this`draft, this`saveDisabled
      ensures draft == old(draft).(section := Some(name))
      ensures saveDisabled == !SaveEnabled(draft)
    {
      draft := draft.(section := Some(name));
      UpdateSaveBtnState();
    }

    /** An `input` event on the task text field. */
    method InputText(text: string)
      modifies this`draft, this`saveDisabled
      ensures draft == old(draft).(text := text)
      ensures saveDisabled == !SaveEnabled(draft)
    {
      draft := draft.(text := text);
      UpdateSaveBtnState();
    }

    /** saveTasksToLocalStorage: the slot receives one record per task on
        the page, section by section, in document order. */
    method SaveTasksToLocalStorage()
      modifies this`saved
      ensures saved == Snapshot(sections)
    {
      saved := SaveRecords(sections);
    }

    /** getSectionContainer: the index of the section named `name`, which
        is appended with no tasks when the page has none. */
    method GetSectionContainer(name: string) returns (k: nat)
      modifies this`sections
      ensures (sections, k) == Container(old(sections), name)
    {
      var found := SectionIndex(sections, name);
      if found.None? {
        sections := sections + [Section(name, [])];
        k := |sections| - 1;
      } else {
        k := found.value;
      }
    }

    /** addTask: a refused draft changes nothing; otherwise the task goes
        into its section (created after the others when new, then sorted
        in), the page is saved and the form reset, as AddStep says. */
    method AddTask()
      requires Valid()
      modifies this
      ensures Valid()
      ensures State() == AddStep(old(State()))
    {
      AddStepSpec(State());
      if draft.text == [] || draft.priority.None? || draft.section.None? || draft.section.value == [] {
        return;
      }
      AddAccepted();
    }

    /** The part of addTask after the draft has been accepted. */
    method AddAccepted()
      requires SaveEnabled(draft)
      modifies this
      ensures State() == AddStep(old(State()))
    {
      var name := draft.section.value;
      var t := Task(nextId, draft.text, draft.priority.value, false);
      ghost var s0, secs := State(), AddToStore(sections, name, t);
      PutTask(name, t);
      nextId := nextId + 1;
      SaveTasksToLocalStorage();
      // reset the form
      draft := EmptyDraft;
      saveDisabled := true;
      AddStepAccepted(s0, secs);
    }

    /** The section container is looked up (or created) and the task is
        sorted into it. */
    method PutTask(name: string, t: Task)
      modifies this`sections
      ensures sections == AddToStore(old(sections), name, t)
    {
      AddViaContainer(sections, name, t);
      var k := GetSectionContainer(name);
      var ts := InsertTaskSorted(sections[k].tasks, t);
      sections := sections[k := Section(name, ts)];
    }

    /** The delete button of the task with id `id`: the task is removed,
        its section with it when it was the last one, and the page is
        saved. No task has the id: nothing happens. */
    method DeleteTask(id: nat)
      requires Valid()
      modifies this
      ensures Valid()
      ensures Locate(old(sections), id).None? ==> State() == old(State())
      ensures Locate(old(sections), id).Some? ==>
                && sections == DeleteAt(old(sections), Locate(old(sections), id).value)
                && State() == old(State()).(sections := sections, saved := Snapshot(sections))
    {
      var loc := Locate(sections, id);
      if loc.None? {
        return;
      }
      var p := loc.value;
      DeleteKeepsInv(sections, p, nextId);
      RemoveTaskElement(p);
      SaveTasksToLocalStorage();
    }

    /** The task element at `p` leaves the page, and its section with it
        when no task is left in it. */
    method RemoveTaskElement(p: Pos)
      requires ValidPos(sections, p)
      modifies this`sections
      ensures sections == DeleteAt(old(sections), p)
    {
      var sec := sections[p.section];
      var rest := RemoveAt(sec.tasks, p.index);
      sections := sections[p.section := Section(sec.name, rest)];
      if rest == [] {
        sections := sections[..p.section] + sections[p.section + 1..];
        assert sections == old(sections)[..p.section] + old(sections)[p.section + 1..];
      }
    }

    /** The checkbox of the task with id `id` changes: its completed flag
        flips and the page is saved. No task has the id: nothing happens. */
    method ToggleCompleted(id: nat)
      requires Valid()
      modifies this
      ensures Valid()
      ensures Locate(old(sections), id).None? ==> State() == old(State())
      ensures Locate(old(sections), id).Some? ==>
                && sections == Toggle(old(sections), Locate(old(sections), id).value)
                && State() == old(State()).(sections := sections, saved := Snapshot(sections))
    {
      var loc := Locate(sections, id);
      if loc.None? {
        return;
      }
      var p := loc.value;
      SetCompletedKeepsInv(sections, p, !TaskAt(sections, p).completed, nextId);
      var sec := sections[p.section];
      var t := sec.tasks[p.index];
      sections := sections[p.section := Section(sec.name, sec.tasks[p.index := t.(completed := !t.completed)])];
      SaveTasksToLocalStorage();
    }

    /** The `:last-child` query of the load and the marking of the task it
        finds. `ok` is false when nothing is found, where the script
        dereferences null. */
    method MarkLastTask(name: string) returns (ok: bool)
      modifies this`sections
      ensures ok == MarkLast(old(sections), name).Some?
      ensures sections == if ok then MarkLast(old(sections), name).value else old(sections)
    {
      var found := SectionIndex(sections, name);
      if found.None? || sections[found.value].tasks == [] {
        return false;
      }
      var k := found.value;
      var sec := sections[k];
      var last := |sec.tasks| - 1;
      sections := sections[k := Section(sec.name, sec.tasks[last := sec.tasks[last].(completed := true)])];
      ok := true;
    }

    /** The body of the load's loop for one stored record: the record goes
        into the form, addTask runs, and a completed record marks the last
        task of its section. `ok` is false where the script stops. */
    method LoadRecord(r: Record) returns (ok: bool)
      requires Valid()
      modifies this
      ensures Valid()
      ensures Loaded(State(), ok) == LoadStep(old(State()), r)
    {
      LoadStepKeepsInv(State(), r);
      draft := Draft(r.text, Some(r.priority), Some(r.section));
      AddTask();
      ok := true;
      if r.completed {
        ok := MarkLastTask(r.section);
      }
    }

    /** loadTasksFromLocalStorage: each stored record is put into the form
        and added with addTask; a completed record then marks the last task
        of its section. When that section is missing the script stops with
        an error (`ok` false) and the form keeps the record's values;
        otherwise the form is cleared at the end. */
    method LoadTasksFromLocalStorage() returns (ok: bool)
      requires Valid()
      modifies this
      ensures Valid()
      ensures ok == Replay(old(State()), old(saved)).ok
      ensures ok ==> State() == Replay(old(State()), old(saved)).page.(draft := EmptyDraft)
      ensures !ok ==> State() == Replay(old(State()), old(saved)).page
    {
      var recs := saved;
      ghost var s0 := State();
      var i := 0;
      while i < |recs|
        invariant 0 <= i <= |recs|
        invariant Valid()
        invariant Replay(s0, recs[..i]) == Loaded(State(), true)
      {
        ghost var q := State();
        var stepOk := LoadRecord(recs[i]);
        ReplayPrefix(s0, recs, i, q);
        if !stepOk {
          return false;
        }
        i := i + 1;
      }
      assert recs[..i] == recs;
      draft := EmptyDraft;
      ok := true;
    }
  }
}
