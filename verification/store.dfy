/** The task store: sections in page order, each holding its tasks in
    document order, and the operations the page performs on them. */
module Store {
  import opened Tasks
  import opened Insertion
  import opened Persistence

  /** Where a task sits: the index of its section and its index there. */
  datatype Pos = Pos(section: nat, index: nat)

  ghost predicate ValidPos(secs: seq<Section>, p: Pos)
  {
    p.section < |secs| && p.index < |secs[p.section].tasks|
  }

  function TaskAt(secs: seq<Section>, p: Pos): Task
    requires ValidPos(secs, p)
  {
    secs[p.section].tasks[p.index]
  }

  // ---------------------------------------------------------------------
  // Invariants of the store

  /** At most one section per name. */
  ghost predicate UniqueNames(secs: seq<Section>)
  {
    forall i, j :: 0 <= i < j < |secs| ==> secs[i].name != secs[j].name
  }

  /** A section has a name, at least one task, tasks sorted by priority and
      no task with empty text. */
  ghost predicate GoodSection(s: Section)
  {
    && s.name != []
    && s.tasks != []
    && Sorted(s.tasks)
    && forall j :: 0 <= j < |s.tasks| ==> s.tasks[j].text != []
  }

  ghost predicate WellFormed(secs: seq<Section>)
  {
    UniqueNames(secs) && forall i :: 0 <= i < |secs| ==> GoodSection(secs[i])
  }

  /** The ids of a section's tasks. */
  function IdSet(ts: seq<Task>): set<nat>
  {
    set j | 0 <= j < |ts| :: ts[j].id
  }

  /** No two tasks of one section share an id. */
  ghost predicate DistinctIds(ts: seq<Task>)
  {
    forall i, j :: 0 <= i < j < |ts| ==> ts[i].id != ts[j].id
  }

  /** Every id was handed out before `n`. */
  ghost predicate IdsBelow(secs: seq<Section>, n: nat)
  {
    forall a :: 0 <= a < |secs| ==> forall id :: id in IdSet(secs[a].tasks) ==> id < n
  }

  /** No two tasks share an id: an id names one element of the page. */
  ghost predicate IdsUnique(secs: seq<Section>)
  {
    && (forall a :: 0 <= a < |secs| ==> DistinctIds(secs[a].tasks))
    && (forall a, b :: 0 <= a < b < |secs| ==> IdSet(secs[a].tasks) !! IdSet(secs[b].tasks))
  }

  ghost predicate Inv(secs: seq<Section>, n: nat)
  {
    WellFormed(secs) && IdsBelow(secs, n) && IdsUnique(secs)
  }

  /** Replacing one section by a good section with the same name, whose ids
      are its predecessor's or the next fresh one, keeps the invariant. */
  lemma {:induction false} ReplaceKeepsInv(secs: seq<Section>, a: nat, s: Section, n: nat)
    requires Inv(secs, n) && a < |secs|
    requires s.name == secs[a].name && GoodSection(s) && DistinctIds(s.tasks)
    requires IdSet(s.tasks) <= IdSet(secs[a].tasks) + {n}
    ensures Inv(secs[a := s], n + 1)
    ensures IdSet(s.tasks) <= IdSet(secs[a].tasks) ==> Inv(secs[a := s], n)
  {
    var r := secs[a := s];
    forall b | 0 <= b < |secs| && b != a
      ensures IdSet(s.tasks) !! IdSet(secs[b].tasks)
    {
      if b < a {
        assert IdSet(secs[b].tasks) !! IdSet(secs[a].tasks);
      } else {
        assert IdSet(secs[a].tasks) !! IdSet(secs[b].tasks);
      }
    }
  }

  /** Appending a good one-task section under a new name with the next
      fresh id keeps the invariant. */
  lemma {:induction false} AppendKeepsInv(secs: seq<Section>, name: string, t: Task, n: nat)
    requires Inv(secs, n)
    requires forall j :: 0 <= j < |secs| ==> secs[j].name != name
    requires name != [] && t.text != [] && t.id == n
    ensures Inv(secs + [Section(name, [t])], n + 1)
  {
    var r := secs + [Section(name, [t])];
    assert [t][0] == t;
    assert IdSet([t]) == {n};
    forall b | 0 <= b < |secs|
      ensures IdSet(secs[b].tasks) !! {n}
    {
    }
  }

  /** Dropping a section keeps the invariant. */
  lemma {:induction false} DropKeepsInv(secs: seq<Section>, a: nat, n: nat)
    requires Inv(secs, n) && a < |secs|
    ensures Inv(secs[..a] + secs[a + 1..], n)
  {
    var r := secs[..a] + secs[a + 1..];
    assert forall x :: 0 <= x < |r| ==> r[x] == secs[if x < a then x else x + 1];
  }

  // ---------------------------------------------------------------------
  // Finding a section (getSectionContainer) and adding a task (addTask)

  /** The first section carrying `name`, as the attribute selector of
      getSectionContainer finds it. */
  function SectionIndex(secs: seq<Section>, name: string): (r: Option<nat>)
    ensures r.Some? ==> r.value < |secs| && secs[r.value].name == name
    ensures r.Some? ==> forall j :: 0 <= j < r.value ==> secs[j].name != name
    ensures r.None? ==> forall j :: 0 <= j < |secs| ==> secs[j].name != name
  {
    if secs == [] then None
    else if secs[0].name == name then Some(0)
    else match SectionIndex(secs[1..], name)
      case None => None
      case Some(k) => Some(k + 1)
  }

  /** The store after task `t` is added to section `name`: a missing
      section is appended after the existing ones, and the task goes in by
      priority. */
  function AddToStore(secs: seq<Section>, name: string, t: Task): seq<Section>
  {
    match SectionIndex(secs, name)
    case None => secs + [Section(name, [t])]
    case Some(k) => secs[k := Section(name, Insert(secs[k].tasks, t))]
  }

  /** getSectionContainer: the sections after the lookup, the section
      being appended with no tasks when missing, and the index of the
      container. */
  function Container(secs: seq<Section>, name: string): (r: (seq<Section>, nat))
    ensures r.1 < |r.0| && r.0[r.1].name == name
    ensures r.0 == secs || (r.0 == secs + [Section(name, [])] && forall j :: 0 <= j < |secs| ==> secs[j].name != name)
  {
    match SectionIndex(secs, name)
    case None => (secs + [Section(name, [])], |secs|)
    case Some(k) => (secs, k)
  }

  /** Finding or creating the container, then inserting the task into it,
      is adding the task to the store. */
  lemma {:induction false} AddViaContainer(secs: seq<Section>, name: string, t: Task)
    ensures var c := Container(secs, name);
            c.0[c.1 := Section(name, Insert(c.0[c.1].tasks, t))] == AddToStore(secs, name, t)
  {
    if SectionIndex(secs, name).None? {
      assert Insert([], t) == [t];
      assert (secs + [Section(name, [])])[|secs| := Section(name, [t])] == secs + [Section(name, [t])];
    }
  }

  /** A new name adds one section, at the end; an existing name reuses its
      section and no other section changes. */
  lemma {:induction false} AddToStoreSections(secs: seq<Section>, name: string, t: Task)
    requires UniqueNames(secs)
    ensures (forall j :: 0 <= j < |secs| ==> secs[j].name != name) ==>
              AddToStore(secs, name, t) == secs + [Section(name, [t])]
    ensures forall k :: 0 <= k < |secs| && secs[k].name == name ==>
              AddToStore(secs, name, t) == secs[k := Section(name, Insert(secs[k].tasks, t))]
    ensures UniqueNames(AddToStore(secs, name, t))
  {
    var r := AddToStore(secs, name, t);
    match SectionIndex(secs, name)
    case None =>
      assert forall j :: 0 <= j < |secs| ==> r[j] == secs[j];
    case Some(k) =>
      assert forall j :: 0 <= j < |secs| ==> r[j].name == secs[j].name;
  }

  /** Inserting a task keeps a section's ids and adds the new one. */
  lemma {:induction false} InsertIds(ts: seq<Task>, t: Task)
    ensures IdSet(Insert(ts, t)) == IdSet(ts) + {t.id}
  {
    var r := Insert(ts, t);
    var k := InsertPos(ts, t.priority);
    forall x | 0 <= x < |r| ensures r[x].id in IdSet(ts) + {t.id} {
      InsertShape(ts, t, x);
    }
    forall y | 0 <= y < |ts| ensures ts[y].id in IdSet(r) {
      InsertShape(ts, t, if y < k then y else y + 1);
    }
    InsertShape(ts, t, k);
    assert t.id in IdSet(r);
  }

  /** A fresh id keeps a section's ids distinct. */
  lemma {:induction false} InsertDistinct(ts: seq<Task>, t: Task)
    requires DistinctIds(ts) && t.id !in IdSet(ts)
    ensures DistinctIds(Insert(ts, t))
  {
    var r := Insert(ts, t);
    forall i, j | 0 <= i < j < |r| ensures r[i].id != r[j].id {
      InsertShape(ts, t, i);
      InsertShape(ts, t, j);
    }
  }

  /** Adding a task with non-empty text and a fresh id under a non-empty
      name keeps every invariant of the store. */
  lemma {:induction false} AddKeepsInv(secs: seq<Section>, name: string, t: Task, n: nat)
    requires Inv(secs, n)
    requires name != [] && t.text != [] && t.id == n
    ensures Inv(AddToStore(secs, name, t), n + 1)
  {
    match SectionIndex(secs, name)
    case None =>
      AppendKeepsInv(secs, name, t, n);
    case Some(k) =>
      var ts := secs[k].tasks;
      InsertKeepsSorted(ts, t);
      InsertIds(ts, t);
      InsertDistinct(ts, t);
      var ins := Insert(ts, t);
      forall x | 0 <= x < |ins| ensures ins[x].text != [] {
        InsertShape(ts, t, x);
      }
      ReplaceKeepsInv(secs, k, Section(name, ins), n);
  }

  // ---------------------------------------------------------------------
  // Finding a task by its id

  function FindTask(ts: seq<Task>, id: nat): (r: Option<nat>)
    ensures r.Some? ==> r.value < |ts| && ts[r.value].id == id
    ensures r.None? ==> forall j :: 0 <= j < |ts| ==> ts[j].id != id
  {
    if ts == [] then None
    else if ts[0].id == id then Some(0)
    else match FindTask(ts[1..], id)
      case None => None
      case Some(j) => Some(j + 1)
  }

  /** The position of the task with id `id`, if there is one. */
  function Locate(secs: seq<Section>, id: nat): (r: Option<Pos>)
    ensures r.Some? ==> ValidPos(secs, r.value) && TaskAt(secs, r.value).id == id
    ensures r.None? ==>
              forall a, i :: 0 <= a < |secs| && 0 <= i < |secs[a].tasks| ==> secs[a].tasks[i].id != id
  {
    if secs == [] then None
    else match FindTask(secs[0].tasks, id)
      case Some(i) => Some(Pos(0, i))
      case None =>
        match Locate(secs[1..], id)
        case None => None
        case Some(p) => Some(Pos(p.section + 1, p.index))
  }

  /** With unique ids, a task's id leads back to the task itself. */
  lemma {:induction false} LocateFindsTask(secs: seq<Section>, p: Pos)
    requires IdsUnique(secs) && ValidPos(secs, p)
    ensures Locate(secs, TaskAt(secs, p).id) == Some(p)
  {
    var id := TaskAt(secs, p).id;
    assert secs[p.section].tasks[p.index].id == id;
    var q := Locate(secs, id).value;
    assert id in IdSet(secs[q.section].tasks) && id in IdSet(secs[p.section].tasks);
  }

  // ---------------------------------------------------------------------
  // Deleting a task (the delete button's handler)

  function RemoveAt<T>(s: seq<T>, i: nat): (r: seq<T>)
    requires i < |s|
    ensures |r| == |s| - 1
    ensures forall j :: 0 <= j < i ==> r[j] == s[j]
    ensures forall j :: i <= j < |r| ==> r[j] == s[j + 1]
  {
    s[..i] + s[i + 1..]
  }

  /** The store after the task at `p` is removed; its section goes too when
      that leaves it empty. */
  function DeleteAt(secs: seq<Section>, p: Pos): seq<Section>
    requires ValidPos(secs, p)
  {
    var rest := RemoveAt(secs[p.section].tasks, p.index);
    if rest == [] then secs[..p.section] + secs[p.section + 1..]
    else secs[p.section := Section(secs[p.section].name, rest)]
  }

  /** Removing one task keeps a section sorted with distinct ids. */
  lemma {:induction false} RemoveAtKeeps(ts: seq<Task>, i: nat)
    requires i < |ts|
    ensures Sorted(ts) ==> Sorted(RemoveAt(ts, i))
    ensures DistinctIds(ts) ==> DistinctIds(RemoveAt(ts, i))
  {
    var r := RemoveAt(ts, i);
    assert forall x :: 0 <= x < |r| ==> r[x] == ts[if x < i then x else x + 1];
  }

  /** The ids left after removing the task at `i`. */
  lemma {:induction false} RemoveAtIds(ts: seq<Task>, i: nat)
    requires i < |ts|
    ensures IdSet(RemoveAt(ts, i)) <= IdSet(ts)
    ensures DistinctIds(ts) ==> IdSet(RemoveAt(ts, i)) == IdSet(ts) - {ts[i].id}
  {
    var r := RemoveAt(ts, i);
    forall x | 0 <= x < |r| ensures r[x].id in IdSet(ts) {
      assert r[x] == ts[if x < i then x else x + 1];
    }
    forall y | 0 <= y < |ts| && y != i ensures ts[y].id in IdSet(r) {
      assert r[if y < i then y else y - 1] == ts[y];
    }
  }

  lemma {:induction false} DeleteKeepsInv(secs: seq<Section>, p: Pos, n: nat)
    requires Inv(secs, n) && ValidPos(secs, p)
    ensures Inv(DeleteAt(secs, p), n)
  {
    var a := p.section;
    var rest := RemoveAt(secs[a].tasks, p.index);
    RemoveAtKeeps(secs[a].tasks, p.index);
    RemoveAtIds(secs[a].tasks, p.index);
    if rest == [] {
      DropKeepsInv(secs, a, n);
    } else {
      assert forall x :: 0 <= x < |rest| ==> rest[x] == secs[a].tasks[if x < p.index then x else x + 1];
      ReplaceKeepsInv(secs, a, Section(secs[a].name, rest), n);
    }
  }

  /** The deleted task is gone: no task of the new store has its id. */
  lemma {:induction false} DeleteRemovesTask(secs: seq<Section>, p: Pos)
    requires IdsUnique(secs) && ValidPos(secs, p)
    ensures Locate(DeleteAt(secs, p), TaskAt(secs, p).id) == None
  {
    var a := p.section;
    var id := TaskAt(secs, p).id;
    var r := DeleteAt(secs, p);
    var rest := RemoveAt(secs[a].tasks, p.index);
    RemoveAtKeeps(secs[a].tasks, p.index);
    RemoveAtIds(secs[a].tasks, p.index);
    assert id in IdSet(secs[a].tasks);
    forall b | 0 <= b < |secs| && b != a ensures id !in IdSet(secs[b].tasks) {
      if b < a {
        assert IdSet(secs[b].tasks) !! IdSet(secs[a].tasks);
      } else {
        assert IdSet(secs[a].tasks) !! IdSet(secs[b].tasks);
      }
    }
    if rest == [] {
      assert forall x :: 0 <= x < |r| ==> r[x] == secs[if x < a then x else x + 1];
    }
    forall b, j | 0 <= b < |r| && 0 <= j < |r[b].tasks| ensures r[b].tasks[j].id != id {
      assert r[b].tasks[j].id in IdSet(r[b].tasks);
    }
  }

  /** Index of the task at `p` in the snapshot. */
  function FlatIndex(secs: seq<Section>, p: Pos): nat
    requires ValidPos(secs, p)
  {
    |Snapshot(secs[..p.section])| + p.index
  }

  // ---------------------------------------------------------------------
  // Completion (the checkbox's handler, and load's `:last-child` marking)

  /** The store with the completed flag of the task at `p` set to `c`. */
  function SetCompleted(secs: seq<Section>, p: Pos, c: bool): seq<Section>
    requires ValidPos(secs, p)
  {
    var sec := secs[p.section];
    secs[p.section := Section(sec.name, sec.tasks[p.index := sec.tasks[p.index].(completed := c)])]
  }

  lemma {:induction false} SetCompletedKeepsInv(secs: seq<Section>, p: Pos, c: bool, n: nat)
    requires Inv(secs, n) && ValidPos(secs, p)
    ensures Inv(SetCompleted(secs, p, c), n)
  {
    var sec := secs[p.section];
    var ts := sec.tasks[p.index := sec.tasks[p.index].(completed := c)];
    assert forall x :: 0 <= x < |ts| ==> ts[x].id == sec.tasks[x].id && ts[x].priority == sec.tasks[x].priority;
    assert IdSet(ts) == IdSet(sec.tasks);
    ReplaceKeepsInv(secs, p.section, Section(sec.name, ts), n);
  }

  /** Only the completed flag of the task at `p` changes: the order, the
      other tasks and the task's own text, priority and id stay. */
  lemma {:induction false} SetCompletedOnly(secs: seq<Section>, p: Pos, c: bool)
    requires ValidPos(secs, p)
    ensures var r := SetCompleted(secs, p, c);
            && |r| == |secs|
            && (forall a :: 0 <= a < |r| ==> r[a].name == secs[a].name && |r[a].tasks| == |secs[a].tasks|)
            && (forall a, i :: 0 <= a < |r| && 0 <= i < |r[a].tasks| && Pos(a, i) != p ==>
                  r[a].tasks[i] == secs[a].tasks[i])
            && TaskAt(r, p) == TaskAt(secs, p).(completed := c)
  {
  }

  /** Toggling flips the flag of the task at `p`. */
  function Toggle(secs: seq<Section>, p: Pos): seq<Section>
    requires ValidPos(secs, p)
  {
    SetCompleted(secs, p, !TaskAt(secs, p).completed)
  }

  /** Toggling twice restores the store: the transition is reversible. */
  lemma {:induction false} ToggleTwice(secs: seq<Section>, p: Pos)
    requires ValidPos(secs, p)
    ensures ValidPos(Toggle(secs, p), p)
    ensures Toggle(Toggle(secs, p), p) == secs
  {
    var r := Toggle(Toggle(secs, p), p);
    assert r[p.section].tasks == secs[p.section].tasks;
  }

}
