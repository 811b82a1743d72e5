/** The page as one value, addTask as a step on it, and
    loadTasksFromLocalStorage as a replay of addTask over the persisted
    records. */
module Loading {
  import opened Tasks
  import opened Insertion
  import opened Persistence
  import opened Store

  /** Everything addTask and the load touch: the store, the persisted
      slot, the form draft, the save button's disabled flag and the next
      task id. */
  datatype Page = Page(sections: seq<Section>, saved: seq<Record>, draft: Draft, saveDisabled: bool, nextId: nat)

  /** addTask: nothing happens unless the draft is complete; otherwise the
      task is inserted into its section (created after the others when
      new), the store is saved and the form is reset. */
  function AddStep(s: Page): Page
  {
    if !SaveEnabled(s.draft) then s
    else
      var t := Task(s.nextId, s.draft.text, s.draft.priority.value, false);
      var secs := AddToStore(s.sections, s.draft.section.value, t);
      Page(secs, Snapshot(secs), EmptyDraft, true, s.nextId + 1)
  }

  /** A refused add changes nothing at all; an accepted one keeps the
      store's invariants, saves exactly the new store, adds exactly one
      record, and leaves a reset form whose save button is disabled. */
  lemma {:induction false} AddStepSpec(s: Page)
    requires Inv(s.sections, s.nextId)
    ensures !SaveEnabled(s.draft) ==> AddStep(s) == s
    ensures SaveEnabled(s.draft) ==>
              var r := AddStep(s);
              && Inv(r.sections, r.nextId)
              && r.saved == Snapshot(r.sections)
              && |r.saved| == |Snapshot(s.sections)| + 1
              && r.draft == EmptyDraft && !SaveEnabled(r.draft) && r.saveDisabled
  {
    if SaveEnabled(s.draft) {
      var t := Task(s.nextId, s.draft.text, s.draft.priority.value, false);
      var name := s.draft.section.value;
      AddKeepsInv(s.sections, name, t, s.nextId);
      AddCount(s.sections, name, t);
    }
  }

  /** An accepted add leaves the page with store `secs`, where the task was
      added, saved, and a reset form. */
  lemma {:induction false} AddStepAccepted(s: Page, secs: seq<Section>)
    requires SaveEnabled(s.draft)
    requires AddToStore(s.sections, s.draft.section.value, Task(s.nextId, s.draft.text, s.draft.priority.value, false)) == secs
    ensures AddStep(s) == Page(secs, Snapshot(secs), EmptyDraft, true, s.nextId + 1)
  {
  }

  /** The save button agrees with the form: disabled exactly when the
      draft is incomplete, which is what updateSaveBtnState computes. */
  ghost predicate ButtonAgrees(p: Page)
  {
    p.saveDisabled == !SaveEnabled(p.draft)
  }

  /** addTask keeps the button in agreement with the form: a refused add
      touches neither, and an accepted one resets the form and disables the
      button together. */
  lemma {:induction false} AddStepKeepsButton(s: Page)
    requires ButtonAgrees(s)
    ensures ButtonAgrees(AddStep(s))
  {
  }

  /** An add puts exactly one more record into the snapshot. */
  lemma {:induction false} AddCount(secs: seq<Section>, name: string, t: Task)
    ensures |Snapshot(AddToStore(secs, name, t))| == |Snapshot(secs)| + 1
  {
    match SectionIndex(secs, name)
    case None =>
      SnapshotSnoc(secs, Section(name, [t]));
    case Some(k) =>
      var s' := Section(name, Insert(secs[k].tasks, t));
      SnapshotAround(secs, k);
      var r := secs[k := s'];
      SnapshotAround(r, k);
      assert r[..k] == secs[..k] && r[k + 1..] == secs[k + 1..];
  }

  /** The `:last-child` query of the load: the section named `name` has its
      last task marked completed; None when there is no such task, where
      the page's script dereferences null and stops. */
  function MarkLast(secs: seq<Section>, name: string): Option<seq<Section>>
  {
    match SectionIndex(secs, name)
    case None => None
    case Some(k) =>
      if secs[k].tasks == [] then None
      else Some(SetCompleted(secs, Pos(k, |secs[k].tasks| - 1), true))
  }

  /** Marking the last task of a section keeps the store's invariants. */
  lemma {:induction false} MarkLastKeepsInv(secs: seq<Section>, name: string, n: nat)
    requires Inv(secs, n)
    ensures MarkLast(secs, name).Some? ==> Inv(MarkLast(secs, name).value, n)
  {
    match SectionIndex(secs, name)
    case None =>
    case Some(k) =>
      if secs[k].tasks != [] {
        SetCompletedKeepsInv(secs, Pos(k, |secs[k].tasks| - 1), true, n);
      }
  }

  /** The page after a load step, and whether the load goes on. */
  datatype Loaded = Loaded(page: Page, ok: bool)

  /** One iteration of the load: the record's fields go into the draft,
      addTask runs (and saves), then, if the record is completed, the last
      task of its section is marked, without saving again. */
  function LoadStep(s: Page, r: Record): Loaded
  {
    var added := AddStep(s.(draft := Draft(r.text, Some(r.priority), Some(r.section))));
    if !r.completed then Loaded(added, true)
    else match MarkLast(added.sections, r.section)
      case None => Loaded(added, false)
      case Some(secs) => Loaded(added.(sections := secs), true)
  }

  /** The records replayed in order, stopping at the first failing step. */
  function Replay(s: Page, recs: seq<Record>): Loaded
    decreases |recs|
  {
    if recs == [] then Loaded(s, true)
    else
      var prev := Replay(s, recs[..|recs| - 1]);
      if !prev.ok then prev else LoadStep(prev.page, recs[|recs| - 1])
  }

  /** One more record: the replay so far, then one more step unless it
      has stopped. */
  lemma {:induction false} ReplaySnoc(s: Page, recs: seq<Record>, r: Record)
    ensures Replay(s, recs + [r]) == (var l := Replay(s, recs); if l.ok then LoadStep(l.page, r) else l)
  {
    assert (recs + [r])[..|recs|] == recs;
  }

  /** One more record of `recs` during the load: the replay of the longer
      prefix is that step, and a step that stops is where the whole
      replay stops. */
  lemma {:induction false} ReplayPrefix(s: Page, recs: seq<Record>, i: nat, q: Page)
    requires i < |recs| && Replay(s, recs[..i]) == Loaded(q, true)
    ensures Replay(s, recs[..i + 1]) == LoadStep(q, recs[i])
    ensures !LoadStep(q, recs[i]).ok ==> Replay(s, recs) == LoadStep(q, recs[i])
  {
    assert recs[..i + 1] == recs[..i] + [recs[i]];
    ReplaySnoc(s, recs[..i], recs[i]);
    ReplayAppend(s, recs[..i + 1], recs[i + 1..]);
    assert recs[..i + 1] + recs[i + 1..] == recs;
  }

  /** Replaying two runs of records is replaying the first, then, if it got
      through, the second. */
  lemma {:induction false} ReplayAppend(s: Page, a: seq<Record>, b: seq<Record>)
    ensures Replay(s, a + b) == (var l := Replay(s, a); if l.ok then Replay(l.page, b) else l)
  {
    if b == [] {
      assert a + b == a;
    } else {
      var b0 := b[..|b| - 1];
      assert (a + b)[..|a + b| - 1] == a + b0;
      ReplayAppend(s, a, b0);
    }
  }

  /** One load step keeps the store's invariants, whatever the record. */
  lemma {:induction false} LoadStepKeepsInv(q: Page, r: Record)
    requires Inv(q.sections, q.nextId)
    ensures Inv(LoadStep(q, r).page.sections, LoadStep(q, r).page.nextId)
  {
    var d := q.(draft := Draft(r.text, Some(r.priority), Some(r.section)));
    AddStepSpec(d);
    var added := AddStep(d);
    if r.completed {
      MarkLastKeepsInv(added.sections, r.section, added.nextId);
    }
  }

  /** Whatever the persisted records hold, the load keeps the store's
      invariants: sections non-empty, sorted and uniquely named, ids
      unique. */
  lemma {:induction false} ReplayKeepsInv(s: Page, recs: seq<Record>)
    requires Inv(s.sections, s.nextId)
    ensures Inv(Replay(s, recs).page.sections, Replay(s, recs).page.nextId)
  {
    if recs != [] {
      var prev := Replay(s, recs[..|recs| - 1]);
      ReplayKeepsInv(s, recs[..|recs| - 1]);
      if prev.ok {
        LoadStepKeepsInv(prev.page, recs[|recs| - 1]);
      }
    }
  }

  /** One load step leaves the save button disabled, and the draft it
      leaves behind cannot enable it: the load writes the record into the
      form without updating the button, and addTask either refuses that
      draft or resets the form and disables the button. */
  lemma {:induction false} LoadStepKeepsDisabled(q: Page, r: Record)
    requires q.saveDisabled
    ensures LoadStep(q, r).page.saveDisabled
    ensures !SaveEnabled(LoadStep(q, r).page.draft)
  {
  }

  /** Starting from a disabled button, the whole load, stopped early or
      not, leaves the button disabled and in agreement with the form, and
      so does the final form reset. */
  lemma {:induction false} ReplayKeepsButton(s: Page, recs: seq<Record>)
    requires ButtonAgrees(s) && s.saveDisabled
    ensures Replay(s, recs).page.saveDisabled
    ensures ButtonAgrees(Replay(s, recs).page)
    ensures ButtonAgrees(Replay(s, recs).page.(draft := EmptyDraft))
    decreases |recs|
  {
    if recs != [] {
      var init := recs[..|recs| - 1];
      ReplayKeepsButton(s, init);
      var prev := Replay(s, init);
      if prev.ok {
        LoadStepKeepsDisabled(prev.page, recs[|recs| - 1]);
      }
    }
  }

  /** A section name not yet on the page gets a new section, after the
      others. */
  lemma {:induction false} AddNew(pre: seq<Section>, name: string, t: Task)
    requires forall j :: 0 <= j < |pre| ==> pre[j].name != name
    ensures AddToStore(pre, name, t) == pre + [Section(name, [t])]
  {
  }

  /** A task ranking no higher than every task of the last section it
      names is appended at the end of that section. */
  lemma {:induction false} AddOnto(pre: seq<Section>, name: string, done: seq<Task>, t: Task)
    requires forall j :: 0 <= j < |pre| ==> pre[j].name != name
    requires forall j :: 0 <= j < |done| ==> Rank(done[j].priority) >= Rank(t.priority)
    ensures AddToStore(pre + [Section(name, done)], name, t) == pre + [Section(name, done + [t])]
  {
    var secs := pre + [Section(name, done)];
    assert secs[|pre|].name == name;
    assert forall j :: 0 <= j < |pre| ==> secs[j] == pre[j];
    assert SectionIndex(secs, name) == Some(|pre|);
    InsertAppendsLowest(done, t);
    assert secs[|pre| := Section(name, done + [t])] == pre + [Section(name, done + [t])];
  }

  /** Marking the last task of the last section. */
  lemma {:induction false} MarkLastAtEnd(pre: seq<Section>, name: string, ts: seq<Task>, t: Task)
    requires forall j :: 0 <= j < |pre| ==> pre[j].name != name
    ensures MarkLast(pre + [Section(name, ts + [t])], name) == Some(pre + [Section(name, ts + [t.(completed := true)])])
  {
    var secs := pre + [Section(name, ts + [t])];
    assert secs[|pre|].name == name;
    assert forall j :: 0 <= j < |pre| ==> secs[j] == pre[j];
    assert SectionIndex(secs, name) == Some(|pre|);
    assert (ts + [t])[|ts| := t.(completed := true)] == ts + [t.(completed := true)];
    assert secs[|pre| := Section(name, ts + [t.(completed := true)])] == pre + [Section(name, ts + [t.(completed := true)])];
  }

  /** A record with text and a section name is accepted by addTask: the
      store becomes `secs`, which is saved, and the form is reset. */
  lemma {:induction false} AddStepAccepts(q: Page, r: Record, secs: seq<Section>)
    requires r.text != [] && r.section != []
    requires AddToStore(q.sections, r.section, Task(q.nextId, r.text, r.priority, false)) == secs
    ensures AddStep(q.(draft := Draft(r.text, Some(r.priority), Some(r.section))))
            == Page(secs, Snapshot(secs), EmptyDraft, true, q.nextId + 1)
  {
  }

  /** The `:last-child` argument. When addTask puts the record's task at
      the end of the last section, the last task of that section is the one
      just added, and marking it gives it the record's completed flag; the
      persisted slot keeps the flag cleared. */
  lemma {:induction false} LoadStepAppends(q: Page, pre: seq<Section>, done: seq<Task>, r: Record)
    requires r.text != [] && r.section != []
    requires forall j :: 0 <= j < |pre| ==> pre[j].name != r.section
    requires AddToStore(q.sections, r.section, Task(q.nextId, r.text, r.priority, false))
             == pre + [Section(r.section, done + [Task(q.nextId, r.text, r.priority, false)])]
    ensures LoadStep(q, r) ==
              Loaded(Page(pre + [Section(r.section, done + [Task(q.nextId, r.text, r.priority, r.completed)])],
                          Snapshot(pre + [Section(r.section, done + [Task(q.nextId, r.text, r.priority, false)])]),
                          EmptyDraft, true, q.nextId + 1),
                     true)
  {
    var u := Task(q.nextId, r.text, r.priority, false);
    var secs := pre + [Section(r.section, done + [u])];
    AddStepAccepts(q, r, secs);
    if r.completed {
      MarkLastAtEnd(pre, r.section, done, u);
    }
  }

  /** `p` is page `s` with one more section, named `name`, rebuilt from
      the non-empty `ts` up to ids, after a load whose last save came before
      the last record's completed flag was set. */
  ghost predicate Rebuilt(s: Page, name: string, ts: seq<Task>, p: Page)
  {
    && ts != []
    && |p.sections| == |s.sections| + 1
    && p.sections[..|s.sections|] == s.sections
    && p.sections[|s.sections|].name == name
    && Records(name, p.sections[|s.sections|].tasks) == Records(name, ts)
    && p.saved == Snapshot(s.sections) + ClearLast(Records(name, ts))
    && p.draft == EmptyDraft && p.saveDisabled
    && p.nextId == s.nextId + |ts|
  }

  /** The tasks of the section named `name` while it is being rebuilt:
      none before its first record, the last section's tasks after. */
  function RebuiltTasks(s: Page, ts0: seq<Task>, q: Page): seq<Task>
    requires ts0 != [] ==> |q.sections| > |s.sections|
  {
    if ts0 == [] then [] else q.sections[|s.sections|].tasks
  }

  /** While a section is rebuilt, the next task, ranking no higher than the
      ones before it, goes at the end of the last section. */
  lemma {:induction false} RebuildAdds(s: Page, name: string, ts0: seq<Task>, t: Task, q: Page)
    requires forall j :: 0 <= j < |s.sections| ==> s.sections[j].name != name
    requires forall j :: 0 <= j < |ts0| ==> Rank(ts0[j].priority) >= Rank(t.priority)
    requires ts0 == [] ==> q == s
    requires ts0 != [] ==> Rebuilt(s, name, ts0, q)
    ensures AddToStore(q.sections, name, Task(q.nextId, t.text, t.priority, false))
            == s.sections + [Section(name, RebuiltTasks(s, ts0, q) + [Task(q.nextId, t.text, t.priority, false)])]
  {
    var u := Task(q.nextId, t.text, t.priority, false);
    var done := RebuiltTasks(s, ts0, q);
    if ts0 == [] {
      AddNew(s.sections, name, u);
      assert [u] == done + [u];
    } else {
      assert q.sections == s.sections + [Section(name, done)];
      forall j | 0 <= j < |done| ensures Rank(done[j].priority) >= Rank(t.priority) {
        assert Records(name, done)[j] == Records(name, ts0)[j];
      }
      AddOnto(s.sections, name, done, u);
    }
  }

  /** The page after the step is the rebuilt page one task longer. */
  lemma {:induction false} RebuiltSnoc(s: Page, name: string, ts: seq<Task>, done: seq<Task>, n: nat, p: Page)
    requires ts != []
    requires Records(name, done) == Records(name, ts[..|ts| - 1])
    requires n == s.nextId + |ts| - 1
    requires var t := ts[|ts| - 1];
             p == Page(s.sections + [Section(name, done + [Task(n, t.text, t.priority, t.completed)])],
                       Snapshot(s.sections + [Section(name, done + [Task(n, t.text, t.priority, false)])]),
                       EmptyDraft, true, n + 1)
    ensures Rebuilt(s, name, ts, p)
  {
    var t := ts[|ts| - 1];
    var u := Task(n, t.text, t.priority, false);
    var u' := u.(completed := t.completed);
    assert p.sections[..|s.sections|] == s.sections;
    RecordsSnoc(name, done, u');
    RecordsSnoc(name, done, u);
    SnapshotSnoc(s.sections, Section(name, done + [u]));
  }

  /** One record more: the record of the last task of `ts`, ranking no
      higher than the ones before it, extends the rebuilt section by one
      task. */
  lemma {:induction false} ReplaySectionStep(s: Page, name: string, ts: seq<Task>, q: Page)
    requires ts != [] && name != [] && ts[|ts| - 1].text != []
    requires forall j :: 0 <= j < |s.sections| ==> s.sections[j].name != name
    requires forall j :: 0 <= j < |ts| - 1 ==> Rank(ts[j].priority) >= Rank(ts[|ts| - 1].priority)
    requires |ts| == 1 ==> q == s
    requires |ts| > 1 ==> Rebuilt(s, name, ts[..|ts| - 1], q)
    ensures LoadStep(q, ToRecord(name, ts[|ts| - 1])).ok
    ensures Rebuilt(s, name, ts, LoadStep(q, ToRecord(name, ts[|ts| - 1])).page)
  {
    var ts0, t := ts[..|ts| - 1], ts[|ts| - 1];
    RebuildAdds(s, name, ts0, t, q);
    var done := RebuiltTasks(s, ts0, q);
    LoadStepAppends(q, s.sections, done, ToRecord(name, t));
    RebuiltSnoc(s, name, ts, done, q.nextId, LoadStep(q, ToRecord(name, t)).page);
  }

  /** The records of one section of a sorted store, replayed onto a page
      without that section, rebuild it after the page's other sections:
      every record is appended at the end of its section. The persisted
      slot then holds everything but the last record's completed flag. */
  lemma {:induction false} ReplaySection(s: Page, name: string, ts: seq<Task>)
    requires name != []
    requires forall j :: 0 <= j < |s.sections| ==> s.sections[j].name != name
    requires Sorted(ts)
    requires forall j :: 0 <= j < |ts| ==> ts[j].text != []
    ensures Replay(s, Records(name, ts)).ok
    ensures ts == [] ==> Replay(s, Records(name, ts)).page == s
    ensures ts != [] ==> Rebuilt(s, name, ts, Replay(s, Records(name, ts)).page)
  {
    if ts != [] {
      var n := |ts| - 1;
      var ts0 := ts[..n];
      assert Sorted(ts0);
      ReplaySection(s, name, ts0);
      var recs := Records(name, ts);
      assert recs[..n] == Records(name, ts0);
      var q := Replay(s, recs[..n]).page;
      ReplaySectionStep(s, name, ts, q);
    }
  }

  /** Two stores are the same up to task ids: same sections in the same
      order, each with the same texts, priorities and completed flags in
      the same order. */
  ghost predicate SameUpToIds(a: seq<Section>, b: seq<Section>)
  {
    |a| == |b| &&
    forall i :: 0 <= i < |a| ==>
      a[i].name == b[i].name && Records(a[i].name, a[i].tasks) == Records(b[i].name, b[i].tasks)
  }

  /** Stores that agree up to ids save the same snapshot. */
  lemma {:induction false} SameUpToIdsSnapshot(a: seq<Section>, b: seq<Section>)
    requires SameUpToIds(a, b)
    ensures Snapshot(a) == Snapshot(b)
  {
    if a != [] {
      var n := |a| - 1;
      assert SameUpToIds(a[..n], b[..n]);
      SameUpToIdsSnapshot(a[..n], b[..n]);
    }
  }

  /** The last cleared flag is the last flag of the appended records. */
  lemma {:induction false} ClearLastAppend(a: seq<Record>, b: seq<Record>)
    requires b != []
    ensures ClearLast(a + b) == a + ClearLast(b)
  {
    assert (a + b)[..|a + b| - 1] == a + b[..|b| - 1];
  }

  /** One section more in the round trip: a page agreeing with `init` up
      to ids, extended by the rebuilt `last`, agrees with `init + [last]`
      and holds its snapshot with the last flag cleared. */
  lemma {:induction false} RoundTripStep(init: seq<Section>, last: Section, p0: Page, p: Page)
    requires SameUpToIds(p0.sections, init)
    requires Rebuilt(p0, last.name, last.tasks, p)
    ensures SameUpToIds(p.sections, init + [last])
    ensures p.saved == ClearLast(Snapshot(init + [last]))
    ensures p.draft == EmptyDraft
  {
    var m := |init|;
    assert p.sections == p0.sections + [p.sections[m]];
    SameUpToIdsSnapshot(p0.sections, init);
    SnapshotSnoc(init, last);
    ClearLastAppend(Snapshot(init), Records(last.name, last.tasks));
  }

  /** The save/load round trip. Loading the snapshot of a well-formed store
      into an empty page succeeds and rebuilds the same store up to ids,
      which therefore saves the same snapshot. Because the last record's
      completed flag is set after the last save, the persisted slot is the
      snapshot with that flag cleared. */
  lemma {:induction false} LoadRoundTrip(s: Page, secs: seq<Section>)
    requires s.sections == []
    requires WellFormed(secs)
    ensures Replay(s, Snapshot(secs)).ok
    ensures SameUpToIds(Replay(s, Snapshot(secs)).page.sections, secs)
    ensures Snapshot(Replay(s, Snapshot(secs)).page.sections) == Snapshot(secs)
    ensures secs == [] ==> Replay(s, Snapshot(secs)).page == s
    ensures secs != [] ==>
              && Replay(s, Snapshot(secs)).page.saved == ClearLast(Snapshot(secs))
              && Replay(s, Snapshot(secs)).page.draft == EmptyDraft
  {
    var l := Replay(s, Snapshot(secs));
    if secs != [] {
      var n := |secs| - 1;
      var init, last := secs[..n], secs[n];
      assert secs == init + [last];
      assert WellFormed(init);
      LoadRoundTrip(s, init);
      var p0 := Replay(s, Snapshot(init)).page;
      SnapshotSnoc(init, last);
      ReplayAppend(s, Snapshot(init), Records(last.name, last.tasks));
      forall j | 0 <= j < |p0.sections| ensures p0.sections[j].name != last.name {
        assert p0.sections[j].name == secs[j].name;
      }
      ReplaySection(p0, last.name, last.tasks);
      RoundTripStep(init, last, p0, l.page);
      SameUpToIdsSnapshot(l.page.sections, secs);
    }
  }
}
